/**
 Render-time conversion of dollar-delimited math in AsciiDoc, with code regions left alone.

 Text is a sequence of bytes held as characters.  The regular expressions of normalize.go are
 written out as the leftmost search each of them performs; a search that splitCodeRegions runs on
 the rest of the text after `base` treats `base` as the beginning of a line.
 */
module Normalizer {
  import opened Prelude

  // ---------------------------------------------------------------- lines and searches

  predicate IsBlank(c: char) {
    c == ' ' || c == '\t'
  }

  /** The first position from p on that holds no blank. */
  function SkipBlanks(s: string, p: nat): (e: nat)
    requires p <= |s|
    ensures p <= e <= |s|
    ensures forall i :: p <= i < e ==> IsBlank(s[i])
    ensures e < |s| ==> !IsBlank(s[e])
    decreases |s| - p
  {
    if p < |s| && IsBlank(s[p]) then SkipBlanks(s, p + 1) else p
  }

  /** The first position from p on that does not hold c. */
  function SkipRun(s: string, p: nat, c: char): (e: nat)
    requires p <= |s|
    ensures p <= e <= |s|
    decreases |s| - p
  {
    if p < |s| && s[p] == c then SkipRun(s, p + 1, c) else p
  }

  lemma {:induction false} RunIsConstant(s: string, p: nat, c: char)
    requires p <= |s|
    ensures forall i :: p <= i < SkipRun(s, p, c) ==> s[i] == c
    decreases |s| - p
  {
    if p < |s| && s[p] == c {
      RunIsConstant(s, p + 1, c);
    }
  }

  lemma {:induction false} RunEnds(s: string, p: nat, c: char, n: nat)
    requires p <= n <= |s| && (forall i :: p <= i < n ==> s[i] == c) && (n < |s| ==> s[n] != c)
    ensures SkipRun(s, p, c) == n
    decreases n - p
  {
    if p < n {
      RunEnds(s, p + 1, c, n);
    }
  }

  /** The end of the line that p is on. */
  function LineEnd(s: string, p: nat): (e: nat)
    requires p <= |s|
    ensures p <= e <= |s|
    ensures '\n' !in s[p..e]
    ensures e == |s| || s[e] == '\n'
    decreases |s| - p
  {
    if p == |s| || s[p] == '\n' then p else LineEnd(s, p + 1)
  }

  predicate AtLineEnd(s: string, p: nat)
    requires p <= |s|
  {
    p == |s| || s[p] == '\n'
  }

  predicate HasAt(s: string, p: nat, sub: string) {
    p + |sub| <= |s| && s[p..p + |sub|] == sub
  }

  /** strings.Index from `from` on: the least occurrence of sub, or -1. */
  function IndexFrom(s: string, from: nat, sub: string): (i: int)
    requires from <= |s|
    ensures i == -1 || (from <= i && HasAt(s, i, sub))
    ensures forall p: nat :: from <= p && (i == -1 || p < i) ==> !HasAt(s, p, sub)
    decreases |s| - from
  {
    if HasAt(s, from, sub) then from
    else if from == |s| then -1
    else IndexFrom(s, from + 1, sub)
  }

  /** Where a pattern matched. */
  datatype Match = NoMatch | Match(start: nat, end: nat)

  /** A fence line at p: four or more hyphens or dots and then only blanks. */
  function FenceAt(s: string, base: nat, p: nat): (m: Match)
    requires base <= p < |s|
    ensures m.Match? ==> m.start == p && p + 4 <= m.end <= |s|
  {
    var run := if s[p] == '-' || s[p] == '.' then SkipRun(s, p, s[p]) else p;
    var end := SkipBlanks(s, run);
    if (p == base || s[p - 1] == '\n') && run - p >= 4 && AtLineEnd(s, end) then Match(p, end) else NoMatch
  }

  function FindFence(s: string, base: nat, p: nat): (m: Match)
    requires base <= p <= |s|
    ensures m.Match? ==> p <= m.start && m.start + 4 <= m.end <= |s| && m == FenceAt(s, base, m.start)
    decreases |s| - p
  {
    if p == |s| then NoMatch
    else if FenceAt(s, base, p).Match? then FenceAt(s, base, p)
    else FindFence(s, base, p + 1)
  }

  /** A line that opens a block: it begins at p, which is `base` or comes after a newline, and is four or
      more equal hyphens or dots and then only blanks. */
  ghost predicate OpensBlock(s: string, base: nat, p: nat) {
    && p <= |s|
    && (p == base || (p > 0 && s[p - 1] == '\n'))
    && exists n :: p + 4 <= n <= LineEnd(s, p) && FenceText(s, p, n)
                   && forall i :: n <= i < LineEnd(s, p) ==> s[i] == ' ' || s[i] == '\t'
  }

  ghost predicate FenceText(s: string, p: nat, n: nat)
    requires p <= n <= |s|
  {
    (forall i :: p <= i < n ==> s[i] == '-') || (forall i :: p <= i < n ==> s[i] == '.')
  }

  lemma {:induction false} LineEndAt(s: string, p: nat, e: nat)
    requires p <= e <= |s| && '\n' !in s[p..e] && AtLineEnd(s, e)
    ensures LineEnd(s, p) == e
    decreases e - p
  {
    if p < e {
      assert s[p] == s[p..e][0] && s[p + 1..e] == s[p..e][1..];
      LineEndAt(s, p + 1, e);
    }
  }

  /** The fence test accepts exactly these lines, each to its end. */
  lemma {:induction false} FenceAtMeans(s: string, base: nat, p: nat)
    requires base <= p < |s|
    ensures FenceAt(s, base, p).Match? <==> OpensBlock(s, base, p)
    ensures FenceAt(s, base, p).Match? ==> FenceAt(s, base, p).end == LineEnd(s, p)
  {
    if FenceAt(s, base, p).Match? {
      FenceHasNoNewline(s, base, p);
      LineEndAt(s, p, FenceAt(s, base, p).end);
      RunIsConstant(s, p, s[p]);
      assert FenceText(s, p, SkipRun(s, p, s[p]));
    }
    if OpensBlock(s, base, p) {
      OpenerFound(s, base, p);
    }
  }

  lemma {:induction false} OpenerFound(s: string, base: nat, p: nat)
    requires base <= p < |s| && OpensBlock(s, base, p)
    ensures FenceAt(s, base, p).Match?
  {
    var e := LineEnd(s, p);
    var n :| p + 4 <= n <= e && FenceText(s, p, n) && forall i :: n <= i < e ==> s[i] == ' ' || s[i] == '\t';
    assert s[p] == '-' || s[p] == '.';
    RunEnds(s, p, s[p], n);
    assert SkipBlanks(s, n) == e;
  }

  lemma {:induction false} FindFenceLeast(s: string, base: nat, p: nat)
    requires base <= p <= |s|
    ensures var m := FindFence(s, base, p);
            forall q :: p <= q < (if m.Match? then m.start else |s|) ==> FenceAt(s, base, q).NoMatch?
    decreases |s| - p
  {
    if p < |s| {
      FindFenceLeast(s, base, p + 1);
    }
  }

  /** The search returns the least such line at or after p, to its end, and nothing exactly when there
      is none. */
  lemma {:induction false} FindFenceExact(s: string, base: nat, p: nat)
    requires base <= p <= |s|
    ensures match FindFence(s, base, p)
            case NoMatch => forall q :: p <= q <= |s| ==> !OpensBlock(s, base, q)
            case Match(b, e) =>
              && p <= b && OpensBlock(s, base, b) && e == LineEnd(s, b)
              && forall q :: p <= q < b ==> !OpensBlock(s, base, q)
  {
    var m := FindFence(s, base, p);
    FindFenceLeast(s, base, p);
    forall q | p <= q < (if m.Match? then m.start else |s|)
      ensures !OpensBlock(s, base, q)
    {
      FenceAtMeans(s, base, q);
    }
    if m.Match? {
      FenceAtMeans(s, base, m.start);
    }
  }

  /** The first run of backticks. */
  function FindBackticks(s: string, p: nat): (m: Match)
    requires p <= |s|
    ensures m.Match? ==> p <= m.start < m.end <= |s| && s[m.start] == '`' && '`' !in s[p..m.start]
    ensures m.NoMatch? ==> '`' !in s[p..]
    decreases |s| - p
  {
    if p == |s| then NoMatch
    else if s[p] == '`' then Match(p, SkipRun(s, p + 1, '`'))
    else
      assert s[p..] == [s[p]] + s[p + 1..];
      var m := FindBackticks(s, p + 1);
      assert m.Match? ==> s[p..m.start] == [s[p]] + s[p + 1..m.start];
      m
  }

  // ---------------------------------------------------------------- the closing fence

  /** A line starts at p and is the fence text followed by blanks only. */
  predicate ClosingFenceAt(s: string, p: nat, fence: string) {
    && p <= |s|
    && (p == 0 || s[p - 1] == '\n')
    && var line := s[p..LineEnd(s, p)];
       |fence| <= |line| && line[..|fence|] == fence
       && forall i :: |fence| <= i < |line| ==> IsBlank(line[i])
  }

  /** The least closing fence at or after p, tried position by position; -1 if there is none. */
  function FirstClosingFence(s: string, p: nat, fence: string): (r: int)
    requires p <= |s|
    ensures r != -1 ==> p <= r <= |s| && ClosingFenceAt(s, r, fence)
    ensures forall q: nat :: p <= q && (r == -1 || q < r) ==> !ClosingFenceAt(s, q, fence)
    decreases |s| - p
  {
    if ClosingFenceAt(s, p, fence) then p
    else if p == |s| then -1
    else FirstClosingFence(s, p + 1, fence)
  }

  /** What the scanner tests around an occurrence is that a closing fence starts there. */
  lemma {:induction false} ClosingFenceTest(s: string, p: nat, fence: string)
    requires '\n' !in fence && p <= |s|
    ensures ClosingFenceAt(s, p, fence) <==>
              HasAt(s, p, fence) && (p == 0 || s[p - 1] == '\n') && AtLineEnd(s, SkipBlanks(s, p + |fence|))
  {
    if ClosingFenceAt(s, p, fence) {
      assert s[p..LineEnd(s, p)][..|fence|] == s[p..p + |fence|];
    }
  }

  /** Searches occurrence by occurrence, skipping past each one that is not a fence line. */
  method FindClosingFence(src: string, start: nat, fence: string) returns (r: int)
    requires start <= |src| && fence != [] && '\n' !in fence
    ensures r == FirstClosingFence(src, start, fence)
  {
    var from := start;
    while true
      invariant start <= from <= |src|
      invariant forall q: nat :: start <= q < from ==> !ClosingFenceAt(src, q, fence)
      decreases |src| - from
    {
      var lineStart := IndexFrom(src, from, fence);
      forall q: nat | from <= q && (lineStart == -1 || q < lineStart)
        ensures !ClosingFenceAt(src, q, fence)
      {
        if ClosingFenceAt(src, q, fence) {
          ClosingFenceTest(src, q, fence);
        }
      }
      if lineStart == -1 {
        return -1;
      }
      var afterFence := lineStart + |fence|;
      var trailingEnd := SkipBlanks(src, afterFence);
      ClosingFenceTest(src, lineStart, fence);
      if (lineStart == 0 || src[lineStart - 1] == '\n') && AtLineEnd(src, trailingEnd) {
        return lineStart;
      }
      forall q: nat | lineStart < q < afterFence
        ensures !ClosingFenceAt(src, q, fence)
      {
        assert src[q - 1] == src[lineStart..afterFence][q - 1 - lineStart];
      }
      from := afterFence;
    }
  }

  // ---------------------------------------------------------------- code regions

  /** Unmatched is text up to and including a backtick run that nothing closes. */
  datatype Kind = Outside | Code | Unmatched

  datatype Segment = Segment(kind: Kind, text: string)

  function SkipNewline(s: string, p: nat): (e: nat)
    requires p <= |s|
    ensures p <= e <= |s|
  {
    if p < |s| && s[p] == '\n' then p + 1 else p
  }

  /** The pieces the scanner cuts off in one turn, and where it goes on. */
  datatype Cut = Cut(segments: seq<Segment>, next: nat)

  function CutFence(src: string, pos: nat, fence: Match): (c: Cut)
    requires fence.Match? && pos <= fence.start < fence.end <= |src|
    ensures pos < c.next <= |src|
  {
    var text := src[fence.start..fence.end];
    var close := FirstClosingFence(src, SkipNewline(src, fence.end), text);
    var next := if close == -1 then |src| else SkipNewline(src, FenceLineEnd(src, close, text));
    Cut([Segment(Outside, src[pos..fence.start]), Segment(Code, src[fence.start..next])], next)
  }

  /** Where the fence text of the closing fence at p ends. */
  function FenceLineEnd(s: string, p: nat, fence: string): (e: nat)
    requires ClosingFenceAt(s, p, fence)
    ensures e == p + |fence| <= |s|
  {
    p + |fence|
  }

  function CutBackticks(src: string, pos: nat, ticks: Match): (c: Cut)
    requires ticks.Match? && pos <= ticks.start < ticks.end <= |src|
    ensures pos < c.next <= |src|
  {
    var opener := src[ticks.start..ticks.end];
    var close := IndexFrom(src, ticks.end, opener);
    if close == -1 then
      Cut([Segment(Unmatched, src[pos..ticks.end])], ticks.end)
    else
      var next := close + |opener|;
      Cut([Segment(Outside, src[pos..ticks.start]), Segment(Code, src[ticks.start..next])], next)
  }

  function NextCut(src: string, pos: nat): (c: Cut)
    requires pos < |src|
    ensures pos < c.next <= |src|
  {
    var fence := FindFence(src, pos, pos);
    var ticks := FindBackticks(src, pos);
    if fence.NoMatch? && ticks.NoMatch? then
      Cut([Segment(Outside, src[pos..])], |src|)
    else if ticks.NoMatch? || (fence.Match? && fence.start <= ticks.start) then
      CutFence(src, pos, fence)
    else
      CutBackticks(src, pos, ticks)
  }

  /** The text from pos on, cut into what is and what is not code. */
  function Regions(src: string, pos: nat): seq<Segment>
    requires pos <= |src|
    decreases |src| - pos
  {
    if pos == |src| then
      []
    else
      var cut := NextCut(src, pos);
      cut.segments + Regions(src, cut.next)
  }

  function Texts(segments: seq<Segment>): (texts: seq<string>)
    ensures |texts| == |segments|
    ensures forall k :: 0 <= k < |texts| ==> texts[k] == segments[k].text
  {
    seq(|segments|, k requires 0 <= k < |segments| => segments[k].text)
  }

  function Flatten(texts: seq<string>): string {
    if texts == [] then [] else texts[0] + Flatten(texts[1..])
  }

  lemma {:induction false} FlattenAppend(a: seq<string>, b: seq<string>)
    ensures Flatten(a + b) == Flatten(a) + Flatten(b)
  {
    if a == [] {
      assert a + b == b;
    } else {
      assert (a + b)[1..] == a[1..] + b;
      FlattenAppend(a[1..], b);
    }
  }

  lemma {:induction false} TextsAppend(a: seq<Segment>, b: seq<Segment>)
    ensures Texts(a + b) == Texts(a) + Texts(b)
  {
  }

  lemma {:induction false} FlattenPair(a: string, b: string)
    ensures Flatten([a]) == a && Flatten([a, b]) == a + b
  {
    assert [a][1..] == [] && [a, b][1..] == [b] && [b][1..] == [];
    assert Flatten([b]) == b + Flatten([]) == b;
  }

  lemma {:induction false} FlattenTexts(segments: seq<Segment>)
    requires 1 <= |segments| <= 2
    ensures Flatten(Texts(segments)) ==
            if |segments| == 1 then segments[0].text else segments[0].text + segments[1].text
  {
    var texts := Texts(segments);
    if |segments| == 1 {
      FlattenPair(texts[0], []);
      assert texts == [texts[0]];
    } else {
      FlattenPair(texts[0], texts[1]);
      assert texts == [texts[0], texts[1]];
    }
  }

  lemma {:induction false} CutSize(src: string, pos: nat)
    requires pos < |src|
    ensures var cut := NextCut(src, pos);
            |cut.segments| == 2 || (|cut.segments| == 1 && cut.segments[0].text == src[pos..cut.next])
  {
  }

  lemma {:induction false} CutLossless(src: string, pos: nat)
    requires pos < |src|
    ensures Flatten(Texts(NextCut(src, pos).segments)) == src[pos..NextCut(src, pos).next]
  {
    CutSize(src, pos);
    FlattenTexts(NextCut(src, pos).segments);
    if |NextCut(src, pos).segments| == 2 {
      CutJoins(src, pos);
    }
  }

  lemma {:induction false} SliceJoin(s: string, a: nat, b: nat, c: nat)
    requires a <= b <= c <= |s|
    ensures s[a..b] + s[b..c] == s[a..c]
  {
  }

  lemma {:induction false} CutJoins(src: string, pos: nat)
    requires pos < |src| && |NextCut(src, pos).segments| == 2
    ensures var cut := NextCut(src, pos); cut.segments[0].text + cut.segments[1].text == src[pos..cut.next]
  {
    var cut := NextCut(src, pos);
    var fence, ticks := FindFence(src, pos, pos), FindBackticks(src, pos);
    var start := if ticks.NoMatch? || (fence.Match? && fence.start <= ticks.start) then fence.start else ticks.start;
    assert cut.segments[0].text == src[pos..start] && cut.segments[1].text == src[start..cut.next];
    SliceJoin(src, pos, start, cut.next);
  }

  lemma {:induction false} FlattenTextsAppend(a: seq<Segment>, b: seq<Segment>)
    ensures Flatten(Texts(a + b)) == Flatten(Texts(a)) + Flatten(Texts(b))
  {
    TextsAppend(a, b);
    FlattenAppend(Texts(a), Texts(b));
  }

  lemma {:induction false} RegionsUnfold(src: string, pos: nat)
    requires pos < |src|
    ensures Regions(src, pos) == NextCut(src, pos).segments + Regions(src, NextCut(src, pos).next)
  {
  }

  /** The first line after the opening one at which the block that opens at p can close. */
  function BodyStart(src: string, p: nat): (body: nat)
    requires p <= |src|
    ensures LineEnd(src, p) <= body <= |src|
  {
    SkipNewline(src, LineEnd(src, p))
  }

  /** The block that opens at p closes at r: the least line after it that repeats its text. */
  ghost predicate ClosesAt(src: string, p: nat, r: nat)
    requires p <= |src|
  {
    var fence := src[p..LineEnd(src, p)];
    && BodyStart(src, p) <= r <= |src| && ClosingFenceAt(src, r, fence)
    && forall q :: BodyStart(src, p) <= q < r ==> !ClosingFenceAt(src, q, fence)
  }

  ghost predicate NeverCloses(src: string, p: nat)
    requires p <= |src|
  {
    forall q :: BodyStart(src, p) <= q <= |src| ==> !ClosingFenceAt(src, q, src[p..LineEnd(src, p)])
  }

  /** What the scanner cuts off at pos is the text before p, and code from p up to `next`. */
  ghost predicate CodeUpTo(src: string, pos: nat, p: nat, next: nat) {
    && pos <= p < next <= |src|
    && NextCut(src, pos) == Cut([Segment(Outside, src[pos..p]), Segment(Code, src[p..next])], next)
  }

  lemma {:induction false} CodeInRegions(src: string, pos: nat, p: nat, next: nat)
    requires CodeUpTo(src, pos, p, next)
    ensures Regions(src, pos) == [Segment(Outside, src[pos..p]), Segment(Code, src[p..next])] + Regions(src, next)
  {
    RegionsUnfold(src, pos);
  }

  /** The first block of the text, with no backtick before it. */
  ghost predicate BlockAt(src: string, pos: nat, p: nat) {
    && pos <= p < |src| && OpensBlock(src, pos, p) && '`' !in src[pos..p]
    && forall q :: pos <= q < p ==> !OpensBlock(src, pos, q)
  }

  /** It is a code segment, from the line that opens it through its closing fence and the newline right
      behind that. */
  lemma {:induction false} BlockIsCode(src: string, pos: nat, p: nat, r: nat, next: nat)
    requires BlockAt(src, pos, p) && ClosesAt(src, p, r) && EndsBehind(src, r + (LineEnd(src, p) - p), next)
    ensures CodeUpTo(src, pos, p, next)
  {
    assert FirstClosingFence(src, SkipNewline(src, LineEnd(src, p)), src[p..LineEnd(src, p)]) == r;
    BlockTurn(src, pos, p, r, next);
  }

  /** A block that never closes is code to the end of the text. */
  lemma {:induction false} OpenBlockIsCode(src: string, pos: nat, p: nat)
    requires BlockAt(src, pos, p) && NeverCloses(src, p)
    ensures CodeUpTo(src, pos, p, |src|)
  {
    assert FirstClosingFence(src, SkipNewline(src, LineEnd(src, p)), src[p..LineEnd(src, p)]) == -1;
    BlockTurn(src, pos, p, -1, |src|);
  }

  predicate EndsBehind(src: string, e: nat, next: nat) {
    next == if e < |src| && src[e] == '\n' then e + 1 else e
  }

  lemma {:induction false} BlockTurn(src: string, pos: nat, p: nat, r: int, next: nat)
    requires BlockAt(src, pos, p)
    requires FirstClosingFence(src, SkipNewline(src, LineEnd(src, p)), src[p..LineEnd(src, p)]) == r
    requires if r == -1 then next == |src| else EndsBehind(src, r + (LineEnd(src, p) - p), next)
    ensures CodeUpTo(src, pos, p, next)
  {
    var e := LineEnd(src, p);
    assert p < e by {
      OpenerHasLength(src, pos, p);
    }
    BlockCut(src, pos, p, e, r, next);
    BlockNext(src, pos, p, Cut([Segment(Outside, src[pos..p]), Segment(Code, src[p..next])], next));
  }

  lemma {:induction false} BlockCut(src: string, pos: nat, p: nat, e: nat, r: int, next: nat)
    requires pos <= p < e <= |src| && FirstClosingFence(src, SkipNewline(src, e), src[p..e]) == r
    requires if r == -1 then next == |src| else EndsBehind(src, r + (e - p), next)
    ensures p < next <= |src|
    ensures CutFence(src, pos, Match(p, e))
            == Cut([Segment(Outside, src[pos..p]), Segment(Code, src[p..next])], next)
  {
    var text := src[p..e];
    assert CutFence(src, pos, Match(p, e)).next == next;
  }

  lemma {:induction false} RegionsAre(src: string, pos: nat, segments: seq<Segment>, next: nat)
    requires pos < |src| && NextCut(src, pos) == Cut(segments, next)
    ensures next <= |src| && Regions(src, pos) == segments + Regions(src, next)
  {
    RegionsUnfold(src, pos);
  }

  lemma {:induction false} OpenerHasLength(src: string, pos: nat, p: nat)
    requires OpensBlock(src, pos, p)
    ensures p + 4 <= LineEnd(src, p)
  {
  }

  lemma {:induction false} BlockNext(src: string, pos: nat, p: nat, cut: Cut)
    requires BlockAt(src, pos, p)
    requires p < LineEnd(src, p) && cut == CutFence(src, pos, Match(p, LineEnd(src, p)))
    ensures NextCut(src, pos) == cut
  {
    FindFenceExact(src, pos, pos);
    assert FindFence(src, pos, pos) == Match(p, LineEnd(src, p));
    assert FindBackticks(src, pos).Match? ==> p <= FindBackticks(src, pos).start by {
      NoTickBefore(src, pos, p);
    }
  }

  lemma {:induction false} NoTickBefore(src: string, pos: nat, p: nat)
    requires pos <= p <= |src| && '`' !in src[pos..p]
    ensures FindBackticks(src, pos).Match? ==> p <= FindBackticks(src, pos).start
    decreases p - pos
  {
    if pos < p {
      assert src[pos] == src[pos..p][0] && src[pos + 1..p] == src[pos..p][1..];
      NoTickBefore(src, pos + 1, p);
    }
  }

  /** The least occurrence of sub from `from` on. */
  ghost predicate FirstOccurrence(s: string, from: nat, sub: string, r: nat) {
    from <= r && HasAt(s, r, sub) && forall q :: from <= q < r ==> !HasAt(s, q, sub)
  }

  ghost predicate Absent(s: string, from: nat, sub: string) {
    forall r :: from <= r ==> !HasAt(s, r, sub)
  }

  /** The first backtick run of the text, with no block before it. */
  ghost predicate TicksAt(src: string, pos: nat, p: nat, n: nat) {
    && pos <= p < n <= |src| && '`' !in src[pos..p]
    && (forall i :: p <= i < n ==> src[i] == '`') && (n < |src| ==> src[n] != '`')
    && forall q :: pos <= q <= p ==> !OpensBlock(src, pos, q)
  }

  /** Where it occurs again behind itself, it is code up to the end of the first such occurrence. */
  lemma {:induction false} SpanIsCode(src: string, pos: nat, p: nat, n: nat, r: nat)
    requires TicksAt(src, pos, p, n) && FirstOccurrence(src, n, src[p..n], r)
    ensures CodeUpTo(src, pos, p, r + (n - p))
  {
    SpanNext(src, pos, p, n);
    SpanPieces(src, pos, p, n, src[p..n], r);
  }

  /** Where it does not, it is passed over as unmatched. */
  lemma {:induction false} LoneRunIsUnmatched(src: string, pos: nat, p: nat, n: nat)
    requires TicksAt(src, pos, p, n) && Absent(src, n, src[p..n])
    ensures Regions(src, pos) == [Segment(Unmatched, src[pos..n])] + Regions(src, n)
  {
    SpanNext(src, pos, p, n);
    SpanPieces(src, pos, p, n, src[p..n], -1);
    RegionsAre(src, pos, [Segment(Unmatched, src[pos..n])], n);
  }

  lemma {:induction false} SpanPieces(src: string, pos: nat, p: nat, n: nat, opener: string, close: int)
    requires pos <= p < n <= |src| && opener == src[p..n]
    requires if close == -1 then Absent(src, n, opener) else close >= 0 && FirstOccurrence(src, n, opener, close)
    ensures CutBackticks(src, pos, Match(p, n)) ==
            if close == -1 then Cut([Segment(Unmatched, src[pos..n])], n)
            else Cut([Segment(Outside, src[pos..p]), Segment(Code, src[p..close + (n - p)])], close + (n - p))
  {
    assert IndexFrom(src, n, opener) == close;
  }

  lemma {:induction false} SpanNext(src: string, pos: nat, p: nat, n: nat)
    requires TicksAt(src, pos, p, n)
    ensures NextCut(src, pos) == CutBackticks(src, pos, Match(p, n))
  {
    var fence := FindFence(src, pos, pos);
    assert fence.Match? ==> p < fence.start by {
      FindFenceExact(src, pos, pos);
    }
    FirstRun(src, pos, p, n);
    TicksFirst(src, pos, fence, Match(p, n));
  }

  lemma {:induction false} TicksFirst(src: string, pos: nat, fence: Match, ticks: Match)
    requires pos < |src| && fence == FindFence(src, pos, pos) && ticks == FindBackticks(src, pos)
    requires ticks.Match? && (fence.Match? ==> ticks.start < fence.start)
    ensures NextCut(src, pos) == CutBackticks(src, pos, ticks)
  {
  }

  lemma {:induction false} FirstRun(src: string, pos: nat, p: nat, n: nat)
    requires pos <= p < n <= |src| && '`' !in src[pos..p]
    requires (forall i :: p <= i < n ==> src[i] == '`') && (n < |src| ==> src[n] != '`')
    ensures FindBackticks(src, pos) == Match(p, n)
    decreases p - pos
  {
    if pos < p {
      assert src[pos] == src[pos..p][0] && src[pos + 1..p] == src[pos..p][1..];
      FirstRun(src, pos + 1, p, n);
    } else {
      RunEnds(src, p + 1, '`', n);
    }
  }

  /** Without backticks and blocks the rest is outside code. */
  lemma {:induction false} RestIsOutside(src: string, pos: nat)
    requires pos < |src| && '`' !in src[pos..] && forall q :: pos <= q < |src| ==> !OpensBlock(src, pos, q)
    ensures Regions(src, pos) == [Segment(Outside, src[pos..])]
  {
    FindFenceExact(src, pos, pos);
    RegionsAre(src, pos, [Segment(Outside, src[pos..])], |src|);
  }

  /** For every text, the segments concatenate to the text. */
  lemma {:induction false} RegionsLossless(src: string, pos: nat)
    requires pos <= |src|
    ensures Flatten(Texts(Regions(src, pos))) == src[pos..]
    decreases |src| - pos
  {
    if pos < |src| {
      RegionsLossless(src, NextCut(src, pos).next);
      CutLossless(src, pos);
      LosslessStep(src, pos, NextCut(src, pos).next, NextCut(src, pos).segments, Regions(src, NextCut(src, pos).next));
      RegionsUnfold(src, pos);
    }
  }

  lemma {:induction false} LosslessStep(src: string, pos: nat, next: nat, segments: seq<Segment>, rest: seq<Segment>)
    requires pos <= next <= |src|
    requires Flatten(Texts(segments)) == src[pos..next] && Flatten(Texts(rest)) == src[next..]
    ensures Flatten(Texts(segments + rest)) == src[pos..]
  {
    FlattenTextsAppend(segments, rest);
    SliceJoin(src, pos, next, |src|);
  }

  /** The scanner.  Its result is the list of texts; what is code is told by position only. */
  method SplitCodeRegions(src: string) returns (result: seq<string>)
    ensures result == Texts(Regions(src, 0))
    ensures Flatten(result) == src
  {
    result := [];
    var pos := 0;
    ghost var done: seq<Segment> := [];
    while pos < |src|
      invariant 0 <= pos <= |src|
      invariant Regions(src, 0) == done + Regions(src, pos)
      invariant result == Texts(done)
    {
      ghost var cut := NextCut(src, pos);
      RegionsTurn(src, pos, done);
      TextsAppend(done, cut.segments);
      result, pos := ScanTurn(src, pos, result);
      done := done + cut.segments;
    }
    RegionsLossless(src, 0);
    assert done + Regions(src, |src|) == done && src[0..] == src;
  }

  lemma {:induction false} RegionsTurn(src: string, pos: nat, done: seq<Segment>)
    requires pos < |src|
    ensures var cut := NextCut(src, pos);
            done + Regions(src, pos) == (done + cut.segments) + Regions(src, cut.next)
  {
  }

  /** One turn of the scanner: the earlier of the next fence and the next backtick run. */
  method ScanTurn(src: string, pos: nat, before: seq<string>) returns (result: seq<string>, next: nat)
    requires pos < |src|
    ensures next == NextCut(src, pos).next
    ensures result == before + Texts(NextCut(src, pos).segments)
  {
    var fence := FindFence(src, pos, pos);
    var ticks := FindBackticks(src, pos);
    if fence.NoMatch? && ticks.NoMatch? {
      result, next := before + [src[pos..]], |src|;
    } else if ticks.NoMatch? || (fence.Match? && fence.start <= ticks.start) {
      result, next := TakeFence(src, pos, fence, before);
    } else {
      result, next := TakeBackticks(src, pos, ticks, before);
    }
  }

  /** The delimited-block branch of the scanner. */
  method TakeFence(src: string, pos: nat, fence: Match, before: seq<string>) returns (result: seq<string>, next: nat)
    requires fence.Match? && pos <= fence.start < fence.end <= |src|
    requires fence == FenceAt(src, pos, fence.start)
    ensures next == CutFence(src, pos, fence).next
    ensures result == before + Texts(CutFence(src, pos, fence).segments)
  {
    var fenceText := src[fence.start..fence.end];
    FenceHasNoNewline(src, pos, fence.start);
    result := before + [src[pos..fence.start]];
    var closeIdx := FindClosingFence(src, SkipNewline(src, fence.end), fenceText);
    if closeIdx == -1 {
      next := |src|;
      result := result + [src[fence.start..next]];
    } else {
      var closeEnd := SkipNewline(src, FenceLineEnd(src, closeIdx, fenceText));
      result := result + [src[fence.start..closeEnd]];
      next := closeEnd;
    }
  }

  /** The inline-span branch of the scanner. */
  method TakeBackticks(src: string, pos: nat, ticks: Match, before: seq<string>)
    returns (result: seq<string>, next: nat)
    requires ticks.Match? && pos <= ticks.start < ticks.end <= |src|
    ensures next == CutBackticks(src, pos, ticks).next
    ensures result == before + Texts(CutBackticks(src, pos, ticks).segments)
  {
    var openerText := src[ticks.start..ticks.end];
    result := before + [src[pos..ticks.start]];
    var closeIdx := IndexFrom(src, ticks.end, openerText);
    if closeIdx == -1 {
      var last := |result| - 1;
      result := result[last := result[last] + openerText];
      assert src[pos..ticks.start] + openerText == src[pos..ticks.end];
      next := ticks.end;
    } else {
      next := closeIdx + |openerText|;
      result := result + [src[ticks.start..next]];
    }
  }

  lemma {:induction false} FenceHasNoNewline(s: string, base: nat, p: nat)
    requires base <= p < |s| && FenceAt(s, base, p).Match?
    ensures '\n' !in s[p..FenceAt(s, base, p).end]
  {
    RunIsConstant(s, p, s[p]);
  }

  // ---------------------------------------------------------------- which positions are code

  /** Code where the parity says so: odd positions, and no others. */
  ghost predicate ParityTellsCode(segments: seq<Segment>) {
    forall k :: 0 <= k < |segments| ==> (segments[k].kind == Code <==> k % 2 == 1)
  }

  /** An unmatched backtick run with more segments after it. */
  ghost predicate EarlyUnmatched(segments: seq<Segment>) {
    exists k :: 0 <= k < |segments| - 1 && segments[k].kind == Unmatched
  }

  /** What the scanner can produce: outside-code pairs and unmatched pieces, and possibly one
      outside segment at the very end. */
  predicate RegionList(segments: seq<Segment>)
    decreases |segments|
  {
    || segments == []
    || (segments[0].kind == Unmatched && RegionList(segments[1..]))
    || (|segments| == 1 && segments[0].kind == Outside)
    || (|segments| >= 2 && segments[0].kind == Outside && segments[1].kind == Code && RegionList(segments[2..]))
  }

  lemma {:induction false} RegionsForm(src: string, pos: nat)
    requires pos <= |src|
    ensures RegionList(Regions(src, pos))
    decreases |src| - pos
  {
    if pos < |src| {
      var cut := NextCut(src, pos);
      RegionsForm(src, cut.next);
      var all := cut.segments + Regions(src, cut.next);
      assert all[|cut.segments|..] == Regions(src, cut.next);
    }
  }

  lemma {:induction false} ParityOfRegionList(segments: seq<Segment>)
    requires RegionList(segments)
    ensures ParityTellsCode(segments) <==> !EarlyUnmatched(segments)
    decreases |segments|
  {
    if segments == [] || |segments| == 1 {
    } else if segments[0].kind == Unmatched {
      assert segments[1..][0].kind != Code;
      assert segments[1].kind != Code;
    } else {
      var rest := segments[2..];
      ParityOfRegionList(rest);
      if EarlyUnmatched(segments) {
        var k :| 0 <= k < |segments| - 1 && segments[k].kind == Unmatched;
        assert rest[k - 2].kind == Unmatched;
        var j :| 0 <= j < |rest| && !(rest[j].kind == Code <==> j % 2 == 1);
        assert segments[j + 2] == rest[j] && (j + 2) % 2 == j % 2;
      } else {
        assert forall k :: 0 <= k < |rest| - 1 ==> rest[k] == segments[k + 2];
        forall k | 0 <= k < |segments|
          ensures segments[k].kind == Code <==> k % 2 == 1
        {
          if k >= 2 {
            assert rest[k - 2] == segments[k] && (k - 2) % 2 == k % 2;
          }
        }
      }
    }
  }

  /** The even/odd convention holds exactly for the texts whose unmatched backtick run, if there
      is one, is followed by nothing. */
  lemma {:induction false} ParityExact(src: string)
    ensures ParityTellsCode(Regions(src, 0)) <==> !EarlyUnmatched(Regions(src, 0))
  {
    RegionsForm(src, 0);
    ParityOfRegionList(Regions(src, 0));
  }

  /** No backtick is ever left outside code, except in an unmatched piece. */
  lemma {:induction false} OutsideHasNoBacktick(src: string, pos: nat, k: nat)
    requires pos <= |src| && k < |Regions(src, pos)| && Regions(src, pos)[k].kind == Outside
    ensures '`' !in Regions(src, pos)[k].text
    decreases |src| - pos
  {
    var cut := NextCut(src, pos);
    var rest := Regions(src, cut.next);
    assert Regions(src, pos) == cut.segments + rest;
    if k >= |cut.segments| {
      assert Regions(src, pos)[k] == rest[k - |cut.segments|];
      OutsideHasNoBacktick(src, cut.next, k - |cut.segments|);
    } else {
      CutOutside(src, pos, k);
    }
  }

  lemma {:induction false} CutOutside(src: string, pos: nat, k: nat)
    requires pos < |src| && k < |NextCut(src, pos).segments| && NextCut(src, pos).segments[k].kind == Outside
    ensures '`' !in NextCut(src, pos).segments[k].text
  {
    var fence, ticks := FindFence(src, pos, pos), FindBackticks(src, pos);
    if fence.Match? && (ticks.NoMatch? || fence.start <= ticks.start) {
      var clean := if ticks.Match? then src[pos..ticks.start] else src[pos..];
      assert src[pos..fence.start] == clean[..fence.start - pos];
    }
  }

  // ---------------------------------------------------------------- dollar math

  const STEM_OPEN: string := "[stem]\n++++\n"
  const STEM_CLOSE: string := "\n++++\n"
  const INLINE_OPEN: string := "stem:["
  const INLINE_CLOSE: string := "]"

  predicate IsSpace(c: char) {
    c in {' ', '\t', '\n', '\r', 11 as char, 12 as char}
  }

  function TrimLeft(s: string): (r: string)
    ensures r == [] || !IsSpace(r[0])
  {
    if s != [] && IsSpace(s[0]) then TrimLeft(s[1..]) else s
  }

  function TrimRight(s: string): (r: string)
    ensures r == [] || !IsSpace(Last(r))
    ensures r <= s
  {
    if s != [] && IsSpace(Last(s)) then TrimRight(Front(s)) else s
  }

  function TrimSpace(s: string): (r: string)
    ensures r == [] || (!IsSpace(r[0]) && !IsSpace(Last(r)))
  {
    TrimRight(TrimLeft(s))
  }

  predicate DoubleDollarAt(s: string, p: nat) {
    p + 2 <= |s| && s[p] == '$' && s[p + 1] == '$'
  }

  /** The least position from p on with two dollars, or |s|. */
  function FindDoubleDollar(s: string, p: nat): (q: nat)
    requires p <= |s|
    ensures p <= q <= |s| && (q == |s| || DoubleDollarAt(s, q))
    ensures forall i :: p <= i < q ==> !DoubleDollarAt(s, i)
    decreases |s| - p
  {
    if p == |s| || DoubleDollarAt(s, p) then p else FindDoubleDollar(s, p + 1)
  }

  /** Leftmost, shortest: two dollars, at least one character, two dollars. */
  function FindDisplay(s: string): (m: Match)
    ensures m.Match? ==> m.start + 5 <= m.end <= |s|
  {
    var p := FindDoubleDollar(s, 0);
    var q := if p + 3 <= |s| then FindDoubleDollar(s, p + 3) else |s|;
    if q < |s| then Match(p, q + 2) else NoMatch
  }

  function ReplaceDisplay(s: string, open: string, close: string): string
    decreases |s|
  {
    match FindDisplay(s)
    case NoMatch => s
    case Match(p, e) =>
      s[..p] + open + TrimSpace(s[p + 2..e - 2]) + close + ReplaceDisplay(s[e..], open, close)
  }

  /** The first position from p on that holds a dollar or ends the line. */
  function InlineEnd(s: string, p: nat): (q: nat)
    requires p <= |s|
    ensures p <= q <= |s| && (q == |s| || s[q] in {'$', '\n'})
    ensures forall i :: p <= i < q ==> s[i] !in {'$', '\n'}
    decreases |s| - p
  {
    if p == |s| || s[p] in {'$', '\n'} then p else InlineEnd(s, p + 1)
  }

  /** A dollar, at least one character that is neither dollar nor newline, a dollar. */
  predicate InlineAt(s: string, p: nat)
    requires p < |s|
  {
    var q := InlineEnd(s, p + 1);
    s[p] == '$' && p + 2 <= q < |s| && s[q] == '$'
  }

  function FindInline(s: string, p: nat): (m: Match)
    requires p <= |s|
    ensures m.Match? ==> p <= m.start && m.start + 3 <= m.end <= |s|
    decreases |s| - p
  {
    if p == |s| then NoMatch
    else if InlineAt(s, p) then Match(p, InlineEnd(s, p + 1) + 1)
    else FindInline(s, p + 1)
  }

  function ReplaceInline(s: string, open: string, close: string): string
    decreases |s|
  {
    match FindInline(s, 0)
    case NoMatch => s
    case Match(p, e) => s[..p] + open + s[p + 1..e - 1] + close + ReplaceInline(s[e..], open, close)
  }

  function ConvertDollarMath(seg: string): string {
    ReplaceInline(ReplaceDisplay(seg, STEM_OPEN, STEM_CLOSE), INLINE_OPEN, INLINE_CLOSE)
  }

  lemma {:induction false} NoInline(s: string, p: nat)
    requires p <= |s| && '$' !in s[p..]
    ensures FindInline(s, p).NoMatch?
    decreases |s| - p
  {
    if p < |s| {
      assert s[p..][0] == s[p];
      assert s[p + 1..] == s[p..][1..];
      NoInline(s, p + 1);
    }
  }

  lemma {:induction false} NoDollarUnchanged(seg: string)
    requires '$' !in seg
    ensures ConvertDollarMath(seg) == seg
  {
    var p := FindDoubleDollar(seg, 0);
    assert FindDisplay(seg).NoMatch?;
    NoInline(seg, 0);
  }

  lemma {:induction false} FirstInline(s: string, p: nat, start: nat, end: nat)
    requires p <= start && start + 2 <= end < |s|
    requires forall i :: p <= i < start ==> s[i] != '$'
    requires s[start] == '$' && s[end] == '$'
    requires forall i :: start < i < end ==> s[i] !in {'$', '\n'}
    ensures FindInline(s, p) == Match(start, end + 1)
    decreases start - p
  {
    if p < start {
      FirstInline(s, p + 1, start, end);
    }
  }

  lemma {:induction false} FirstDisplay(s: string, start: nat, end: nat)
    requires start + 3 <= end && end + 2 <= |s|
    requires forall i :: 0 <= i < start ==> s[i] != '$'
    requires s[start] == s[start + 1] == '$' && s[end] == s[end + 1] == '$'
    requires forall i :: start + 2 <= i < end ==> s[i] != '$'
    ensures FindDisplay(s) == Match(start, end + 2)
  {
    assert DoubleDollarAt(s, start) && DoubleDollarAt(s, end);
    var p := FindDoubleDollar(s, 0);
    assert p == start;
    var q := FindDoubleDollar(s, p + 3);
    assert q == end;
  }

  lemma {:induction false} DisplayParts(before: string, formula: string, after: string)
    ensures var s := before + ['$', '$'] + formula + ['$', '$'] + after;
            var end := |before| + 2 + |formula|;
            s[..|before|] == before && s[|before| + 2..end] == formula && s[end + 2..] == after
  {
  }

  lemma {:induction false} NoDisplay(s: string)
    requires '$' !in s
    ensures FindDisplay(s).NoMatch?
  {
  }

  lemma {:induction false} DisplayPosition(before: string, formula: string, after: string)
    requires '$' !in before && '$' !in formula && formula != []
    ensures FindDisplay(before + ['$', '$'] + formula + ['$', '$'] + after)
            == Match(|before|, |before| + 2 + |formula| + 2)
  {
    var s := before + ['$', '$'] + formula + ['$', '$'] + after;
    var start, end := |before|, |before| + 2 + |formula|;
    assert forall i :: 0 <= i < start ==> s[i] == before[i];
    assert forall i :: start + 2 <= i < end ==> s[i] == formula[i - start - 2];
    assert s[start] == s[start + 1] == '$' && s[end] == s[end + 1] == '$';
    FirstDisplay(s, start, end);
  }

  /** Trimming takes off the white space on both sides, and nothing else. */
  lemma {:induction false} TrimExact(s: string)
    ensures exists a: nat, b: nat :: a + b <= |s| && TrimSpace(s) == s[a..|s| - b] && WhiteSides(s, a, b)
    ensures TrimSpace(s) != [] ==> !White(TrimSpace(s)[0]) && !White(Last(TrimSpace(s)))
  {
    var a := TrimLeftExact(s);
    var t := TrimLeft(s);
    var b := TrimRightExact(t);
    assert TrimSpace(s) == t[..|t| - b] == s[a..|s| - b];
    assert forall i :: |s| - b <= i < |s| ==> s[i] == t[i - a];
    assert a + b <= |s| && WhiteSides(s, a, b);
  }

  predicate White(c: char) {
    c == ' ' || c == '\t' || c == '\n' || c == '\r' || c == 11 as char || c == 12 as char
  }

  predicate WhiteSides(s: string, a: nat, b: nat)
    requires a + b <= |s|
  {
    (forall i :: 0 <= i < a ==> White(s[i])) && forall i :: |s| - b <= i < |s| ==> White(s[i])
  }

  lemma {:induction false} TrimLeftExact(s: string) returns (a: nat)
    ensures a <= |s| && TrimLeft(s) == s[a..] && forall i :: 0 <= i < a ==> White(s[i])
  {
    if s != [] && IsSpace(s[0]) {
      var n := TrimLeftExact(s[1..]);
      a := n + 1;
      assert s[1..][n..] == s[a..];
      assert forall i :: 1 <= i < a ==> s[i] == s[1..][i - 1];
    } else {
      a := 0;
      assert s[0..] == s;
    }
  }

  lemma {:induction false} TrimRightExact(s: string) returns (b: nat)
    ensures b <= |s| && TrimRight(s) == s[..|s| - b] && forall i :: |s| - b <= i < |s| ==> White(s[i])
  {
    if s != [] && IsSpace(Last(s)) {
      var n := TrimRightExact(Front(s));
      b := n + 1;
      assert Front(s)[..|s| - 1 - n] == s[..|s| - b];
    } else {
      b := 0;
      assert s[..|s|] == s;
    }
  }

  lemma {:induction false} TrimKeepsOut(s: string, c: char)
    requires c !in s
    ensures c !in TrimSpace(s)
  {
    TrimLeftKeepsOut(s, c);
    assert TrimSpace(s) <= TrimLeft(s);
  }

  lemma {:induction false} TrimLeftKeepsOut(s: string, c: char)
    requires c !in s
    ensures c !in TrimLeft(s)
  {
    if s != [] {
      TrimLeftKeepsOut(s[1..], c);
    }
  }

  // ---------------------------------------------------------------- texts with formulas

  datatype Formula = Inline(body: string) | Display(body: string)

  /** A formula and the text before it. */
  datatype Piece = Piece(before: string, formula: Formula)

  function Delimited(f: Formula): string {
    match f
    case Inline(body) => ['$'] + body + ['$']
    case Display(body) => ['$', '$'] + body + ['$', '$']
  }

  /** The text an author writes. */
  function Source(pieces: seq<Piece>, tail: string): string {
    if pieces == [] then tail
    else pieces[0].before + Delimited(pieces[0].formula) + Source(pieces[1..], tail)
  }

  /** The text with the displays replaced. */
  function DisplaysReplaced(pieces: seq<Piece>, tail: string, open: string, close: string): string {
    if pieces == [] then tail
    else
      var f := pieces[0].formula;
      pieces[0].before + (if f.Inline? then Delimited(f) else open + TrimSpace(f.body) + close)
        + DisplaysReplaced(pieces[1..], tail, open, close)
  }

  /** What the text should become. */
  function Stem(f: Formula): string {
    match f
    case Inline(body) => INLINE_OPEN + body + INLINE_CLOSE
    case Display(body) => STEM_OPEN + TrimSpace(body) + STEM_CLOSE
  }

  function Target(pieces: seq<Piece>, tail: string): string {
    if pieces == [] then tail else pieces[0].before + Stem(pieces[0].formula) + Target(pieces[1..], tail)
  }

  /** No dollars but the delimiters, formulas not empty, inline ones on one line. */
  ghost predicate Plain(pieces: seq<Piece>, tail: string) {
    '$' !in tail && forall i :: 0 <= i < |pieces| ==> PlainPiece(pieces[i])
  }

  ghost predicate PlainPiece(p: Piece) {
    && '$' !in p.before && p.formula.body != [] && '$' !in p.formula.body
    && (p.formula.Inline? ==> '\n' !in p.formula.body)
  }

  /** An inline formula, and the next formula right behind it. */
  predicate Touches(pieces: seq<Piece>, i: nat) {
    i + 1 < |pieces| && pieces[i].formula.Inline? && pieces[i + 1].before == []
  }

  /** Two dollars in a row that end a formula or, inside a touching pair, seem to begin one. */
  predicate MakesDouble(pieces: seq<Piece>, i: nat) {
    i < |pieces| && (pieces[i].formula.Display? || Touches(pieces, i))
  }

  /** Behind an inline formula that touches the next one there is no display and no further such
      formula. */
  ghost predicate Clear(pieces: seq<Piece>) {
    forall i: nat, j: nat :: i < j && Touches(pieces, i) ==> !MakesDouble(pieces, j)
  }

  /** All formulas kept apart by some text. */
  ghost predicate Separated(pieces: seq<Piece>, tail: string) {
    Plain(pieces, tail) && forall i :: 0 < i < |pieces| ==> pieces[i].before != []
  }

  lemma {:induction false} PlainRest(pieces: seq<Piece>, tail: string)
    requires Plain(pieces, tail) && pieces != []
    ensures PlainPiece(pieces[0]) && Plain(pieces[1..], tail)
    ensures forall i: nat :: Touches(pieces[1..], i) == Touches(pieces, i + 1)
    ensures forall i: nat :: MakesDouble(pieces[1..], i) == MakesDouble(pieces, i + 1)
    ensures pieces[0].formula.Inline? && !Touches(pieces, 0) ==>
              Source(pieces[1..], tail) == [] || Source(pieces[1..], tail)[0] != '$'
  {
    assert forall i :: 0 <= i < |pieces[1..]| ==> pieces[1..][i] == pieces[i + 1];
    if |pieces| > 1 && pieces[1].before != [] {
      var next := pieces[1..][0].before;
      assert Source(pieces[1..], tail)[0] == next[0] && next[0] in next;
    }
  }

  lemma {:induction false} ClearRest(pieces: seq<Piece>, tail: string)
    requires Plain(pieces, tail) && pieces != []
    ensures Clear(pieces) ==> Clear(pieces[1..])
    ensures Clear(pieces[1..]) && !Touches(pieces, 0) ==> Clear(pieces)
    ensures !Clear(pieces) && Touches(pieces, 0) ==> exists j: nat :: MakesDouble(pieces[1..], j)
    ensures Clear(pieces) && Touches(pieces, 0) ==> forall j: nat :: !MakesDouble(pieces[1..], j)
  {
    PlainRest(pieces, tail);
    if Clear(pieces) {
      forall i: nat, j: nat | i < j && Touches(pieces[1..], i)
        ensures !MakesDouble(pieces[1..], j)
      {
        assert Touches(pieces, i + 1) && !MakesDouble(pieces, j + 1);
      }
    } else {
      var i: nat, j: nat :| i < j && Touches(pieces, i) && MakesDouble(pieces, j);
      assert MakesDouble(pieces[1..], j - 1);
      if i > 0 {
        assert Touches(pieces[1..], i - 1);
      }
    }
  }

  lemma {:induction false} DoubleDollarShifted(pre: string, s: string, p: nat)
    requires p <= |s|
    ensures FindDoubleDollar(pre + s, |pre| + p) == |pre| + FindDoubleDollar(s, p)
    decreases |s| - p
  {
    assert DoubleDollarAt(pre + s, |pre| + p) == DoubleDollarAt(s, p);
    if p < |s| && !DoubleDollarAt(s, p) {
      DoubleDollarShifted(pre, s, p + 1);
    }
  }

  /** A prefix without two dollars in a row is passed over. */
  lemma {:induction false} DoubleDollarLater(t: string, p: nat, n: nat)
    requires p <= n <= |t| && forall i :: p <= i < n ==> !DoubleDollarAt(t, i)
    ensures FindDoubleDollar(t, p) == FindDoubleDollar(t, n)
    decreases n - p
  {
    if p < n {
      DoubleDollarLater(t, p + 1, n);
    }
  }

  lemma {:induction false} ShiftSlices(pre: string, s: string, a: nat, b: nat)
    requires a <= b <= |s|
    ensures (pre + s)[..|pre| + a] == pre + s[..a]
    ensures (pre + s)[|pre| + a..|pre| + b] == s[a..b]
    ensures (pre + s)[|pre| + b..] == s[b..]
  {
  }

  lemma {:induction false} FindDisplayShifted(pre: string, s: string)
    requires forall i :: 0 <= i < |pre| ==> !DoubleDollarAt(pre + s, i)
    ensures match FindDisplay(s)
            case NoMatch => FindDisplay(pre + s).NoMatch?
            case Match(b, e) => FindDisplay(pre + s) == Match(|pre| + b, |pre| + e)
  {
    var p := FindDoubleDollar(s, 0);
    DoubleDollarLater(pre + s, 0, |pre|);
    DoubleDollarShifted(pre, s, 0);
    if p + 3 <= |s| {
      DoubleDollarShifted(pre, s, p + 3);
    }
  }

  lemma {:induction false} Regroup(pre: string, a: string, b: string, c: string)
    ensures (pre + a) + b + c == pre + (a + b + c)
  {
  }

  lemma {:induction false} DisplayShifted(pre: string, s: string, open: string, close: string)
    requires forall i :: 0 <= i < |pre| ==> !DoubleDollarAt(pre + s, i)
    ensures ReplaceDisplay(pre + s, open, close) == pre + ReplaceDisplay(s, open, close)
  {
    FindDisplayShifted(pre, s);
    var m := FindDisplay(s);
    if m.Match? {
      DisplayMoved(pre, s, m.start, m.end, open, close);
    }
  }

  lemma {:induction false} DisplayMoved(pre: string, s: string, b: nat, e: nat, open: string, close: string)
    requires b + 5 <= e <= |s|
    requires FindDisplay(s) == Match(b, e) && FindDisplay(pre + s) == Match(|pre| + b, |pre| + e)
    ensures ReplaceDisplay(pre + s, open, close) == pre + ReplaceDisplay(s, open, close)
  {
    var first, body, rest := s[..b], s[b + 2..e - 2], s[e..];
    DisplayAt(s, b, e, first, body, rest, open, close);
    var t := pre + s;
    assert t[..|pre| + b] == pre + first && t[|pre| + e..] == rest by {
      ShiftSlices(pre, s, b, e);
    }
    assert t[|pre| + b + 2..|pre| + e - 2] == body by {
      ShiftSlices(pre, s, b + 2, e - 2);
    }
    DisplayAt(t, |pre| + b, |pre| + e, pre + first, body, rest, open, close);
    Regroup(pre, first, open + TrimSpace(body) + close, ReplaceDisplay(rest, open, close));
  }

  lemma {:induction false} DisplayAt(
    s: string, b: nat, e: nat, first: string, body: string, rest: string, open: string, close: string)
    requires FindDisplay(s) == Match(b, e)
    requires s[..b] == first && s[b + 2..e - 2] == body && s[e..] == rest
    ensures ReplaceDisplay(s, open, close)
            == first + (open + TrimSpace(body) + close) + ReplaceDisplay(rest, open, close)
  {
    assert first + (open + TrimSpace(body) + close) == first + open + TrimSpace(body) + close;
  }

  lemma {:induction false} InlineSkipped(before: string, body: string, s: string, open: string, close: string)
    requires '$' !in before && '$' !in body && body != [] && (s == [] || s[0] != '$')
    ensures ReplaceDisplay(before + (['$'] + body + ['$']) + s, open, close)
            == before + (['$'] + body + ['$']) + ReplaceDisplay(s, open, close)
  {
    var pre := before + (['$'] + body + ['$']);
    var t := pre + s;
    assert forall i :: 0 <= i < |before| ==> t[i] == before[i];
    assert forall i :: 0 <= i < |body| ==> t[|before| + 1 + i] == body[i];
    forall i | 0 <= i < |pre|
      ensures !DoubleDollarAt(t, i)
    {
      if i > |before| + 1 {
        assert t[i - 1] != '$' || i == |pre|;
      }
    }
    DisplayShifted(pre, s, open, close);
  }

  lemma {:induction false} DisplayHead(before: string, body: string, s: string, open: string, close: string)
    requires '$' !in before && '$' !in body && body != []
    ensures ReplaceDisplay(before + (['$', '$'] + body + ['$', '$']) + s, open, close)
            == before + (open + TrimSpace(body) + close) + ReplaceDisplay(s, open, close)
  {
    assert before + (['$', '$'] + body + ['$', '$']) + s == before + ['$', '$'] + body + ['$', '$'] + s;
    DisplayPosition(before, body, s);
    DisplayParts(before, body, s);
  }

  /** Without displays and touching formulas there are no two dollars in a row. */
  lemma {:induction false} NoDoubles(pieces: seq<Piece>, tail: string)
    requires Plain(pieces, tail) && forall j: nat :: !MakesDouble(pieces, j)
    ensures forall i: nat :: !DoubleDollarAt(Source(pieces, tail), i)
    ensures forall open, close :: DisplaysReplaced(pieces, tail, open, close) == Source(pieces, tail)
  {
    if pieces != [] {
      PlainRest(pieces, tail);
      NoDoubles(pieces[1..], tail);
      assert !MakesDouble(pieces, 0);
      InlineHasNoDouble(pieces[0].before, pieces[0].formula.body, Source(pieces[1..], tail));
    }
  }

  lemma {:induction false} InlineHasNoDouble(before: string, body: string, s: string)
    requires '$' !in before && '$' !in body && body != [] && (s == [] || s[0] != '$')
    requires forall i: nat :: !DoubleDollarAt(s, i)
    ensures forall i: nat :: !DoubleDollarAt(before + (['$'] + body + ['$']) + s, i)
  {
    var n := |before| + 2 + |body|;
    var t := before + (['$'] + body + ['$']) + s;
    assert forall i :: 0 <= i < |before| ==> t[i] == before[i];
    assert forall i :: 0 <= i < |body| ==> t[|before| + 1 + i] == body[i];
    forall i: nat
      ensures !DoubleDollarAt(t, i)
    {
      if i >= n {
        assert !DoubleDollarAt(s, i - n);
      }
    }
  }

  /** The two dollars between a touching inline formula and its neighbour are the first ones. */
  lemma {:induction false} TouchingDouble(before: string, body: string, rest: string)
    requires '$' !in before && '$' !in body && body != [] && rest != [] && rest[0] == '$'
    ensures FindDoubleDollar(before + (['$'] + body + ['$']) + rest, 0) == |before| + 1 + |body|
  {
    var p := |before| + 1 + |body|;
    var t := before + (['$'] + body + ['$']) + rest;
    assert forall i :: 0 <= i < |before| ==> t[i] == before[i];
    assert forall i :: 0 <= i < |body| ==> t[|before| + 1 + i] == body[i];
    assert t[p] == '$' && t[p + 1] == rest[0];
    DoubleDollarLater(t, 0, p);
  }

  lemma {:induction false} TouchingRest(pieces: seq<Piece>, tail: string)
    requires Plain(pieces, tail) && Touches(pieces, 0)
    ensures var rest := Source(pieces[1..], tail); |rest| >= 2 && rest[0] == '$'
  {
    assert PlainPiece(pieces[1]) && pieces[1..][0] == pieces[1];
    assert Source(pieces[1..], tail)[0] == Delimited(pieces[1].formula)[0];
  }

  /** Nothing is a display when no two dollars follow those of the touching pair. */
  lemma {:induction false} TouchingSkipped(before: string, body: string, rest: string)
    requires '$' !in before && '$' !in body && body != [] && |rest| >= 2 && rest[0] == '$'
    requires forall i: nat :: !DoubleDollarAt(rest, i)
    ensures FindDisplay(before + (['$'] + body + ['$']) + rest).NoMatch?
  {
    var pre := before + (['$'] + body + ['$']);
    TouchingDouble(before, body, rest);
    assert |pre| + 2 == |before| + 1 + |body| + 3;
    DoubleDollarShifted(pre, rest, 2);
  }

  /** First pass: the displays, and nothing else. */
  lemma {:induction false} FirstPass(pieces: seq<Piece>, tail: string, open: string, close: string)
    requires Plain(pieces, tail) && Clear(pieces)
    ensures ReplaceDisplay(Source(pieces, tail), open, close) == DisplaysReplaced(pieces, tail, open, close)
  {
    if pieces == [] {
      NoDisplay(tail);
    } else {
      PlainRest(pieces, tail);
      ClearRest(pieces, tail);
      var before, rest := pieces[0].before, Source(pieces[1..], tail);
      if Touches(pieces, 0) {
        NoDoubles(pieces[1..], tail);
        TouchingRest(pieces, tail);
        TouchingSkipped(before, pieces[0].formula.body, rest);
      } else {
        FirstPass(pieces[1..], tail, open, close);
        HeadReplaced(pieces, tail, open, close);
      }
    }
  }

  /** A piece that touches nothing, or is a display, is treated by itself. */
  lemma {:induction false} HeadReplaced(pieces: seq<Piece>, tail: string, open: string, close: string)
    requires Plain(pieces, tail) && pieces != [] && !Touches(pieces, 0)
    ensures ReplaceDisplay(Source(pieces, tail), open, close)
            == pieces[0].before
               + (if pieces[0].formula.Inline? then Delimited(pieces[0].formula)
                  else open + TrimSpace(pieces[0].formula.body) + close)
               + ReplaceDisplay(Source(pieces[1..], tail), open, close)
  {
    PlainRest(pieces, tail);
    var before, rest := pieces[0].before, Source(pieces[1..], tail);
    match pieces[0].formula
    case Inline(body) => InlineSkipped(before, body, rest, open, close);
    case Display(body) => DisplayHead(before, body, rest, open, close);
  }

  lemma {:induction false} InlineParts(before: string, body: string, s: string)
    ensures var t := before + (['$'] + body + ['$']) + s;
            var end := |before| + 1 + |body|;
            t[..|before|] == before && t[|before| + 1..end] == body && t[end + 1..] == s
  {
  }

  lemma {:induction false} InlineHead(before: string, body: string, s: string, open: string, close: string)
    requires '$' !in before && body != [] && '$' !in body && '\n' !in body
    ensures ReplaceInline(before + (['$'] + body + ['$']) + s, open, close)
            == before + (open + body + close) + ReplaceInline(s, open, close)
  {
    var t := before + (['$'] + body + ['$']) + s;
    var start, end := |before|, |before| + 1 + |body|;
    assert forall i :: 0 <= i < start ==> t[i] == before[i];
    assert forall i :: start < i < end ==> t[i] == body[i - start - 1];
    FirstInline(t, 0, start, end);
    InlineParts(before, body, s);
    InlineMatchAt(t, start, end + 1, before, body, s, open, close);
  }

  lemma {:induction false} InlineShifted(pre: string, s: string, p: nat)
    requires p <= |s|
    ensures match FindInline(s, p)
            case NoMatch => FindInline(pre + s, |pre| + p).NoMatch?
            case Match(b, e) => FindInline(pre + s, |pre| + p) == Match(|pre| + b, |pre| + e)
    decreases |s| - p
  {
    if p < |s| {
      InlineEndShifted(pre, s, p + 1);
      InlineShifted(pre, s, p + 1);
    }
  }

  lemma {:induction false} InlineEndShifted(pre: string, s: string, p: nat)
    requires p <= |s|
    ensures InlineEnd(pre + s, |pre| + p) == |pre| + InlineEnd(s, p)
    decreases |s| - p
  {
    if p < |s| {
      InlineEndShifted(pre, s, p + 1);
    }
  }

  lemma {:induction false} InlineLater(t: string, p: nat, n: nat)
    requires p <= n <= |t| && forall i :: p <= i < n ==> t[i] != '$'
    ensures FindInline(t, p) == FindInline(t, n)
    decreases n - p
  {
    if p < n {
      InlineLater(t, p + 1, n);
    }
  }

  lemma {:induction false} PlainPrefix(pre: string, s: string, open: string, close: string)
    requires '$' !in pre
    ensures ReplaceInline(pre + s, open, close) == pre + ReplaceInline(s, open, close)
  {
    InlineLater(pre + s, 0, |pre|);
    InlineShifted(pre, s, 0);
    var m := FindInline(s, 0);
    if m.Match? {
      InlineMoved(pre, s, m.start, m.end, open, close);
    }
  }

  lemma {:induction false} InlineMoved(pre: string, s: string, b: nat, e: nat, open: string, close: string)
    requires b + 3 <= e <= |s|
    requires FindInline(s, 0) == Match(b, e) && FindInline(pre + s, 0) == Match(|pre| + b, |pre| + e)
    ensures ReplaceInline(pre + s, open, close) == pre + ReplaceInline(s, open, close)
  {
    var first, body, rest := s[..b], s[b + 1..e - 1], s[e..];
    InlineMatchAt(s, b, e, first, body, rest, open, close);
    var t := pre + s;
    assert t[..|pre| + b] == pre + first && t[|pre| + e..] == rest by {
      ShiftSlices(pre, s, b, e);
    }
    assert t[|pre| + b + 1..|pre| + e - 1] == body by {
      ShiftSlices(pre, s, b + 1, e - 1);
    }
    InlineMatchAt(t, |pre| + b, |pre| + e, pre + first, body, rest, open, close);
    Regroup(pre, first, open + body + close, ReplaceInline(rest, open, close));
  }

  lemma {:induction false} InlineMatchAt(
    s: string, b: nat, e: nat, first: string, body: string, rest: string, open: string, close: string)
    requires FindInline(s, 0) == Match(b, e)
    requires s[..b] == first && s[b + 1..e - 1] == body && s[e..] == rest
    ensures ReplaceInline(s, open, close) == first + (open + body + close) + ReplaceInline(rest, open, close)
  {
    assert first + (open + body + close) == first + open + body + close;
  }

  /** Second pass: the inline formulas that are left. */
  lemma {:induction false} SecondPass(pieces: seq<Piece>, tail: string)
    requires Plain(pieces, tail)
    ensures ReplaceInline(DisplaysReplaced(pieces, tail, STEM_OPEN, STEM_CLOSE), INLINE_OPEN, INLINE_CLOSE)
            == Target(pieces, tail)
  {
    if pieces == [] {
      NoInline(tail, 0);
    } else {
      PlainRest(pieces, tail);
      SecondPass(pieces[1..], tail);
      HeadInlined(pieces[0], DisplaysReplaced(pieces[1..], tail, STEM_OPEN, STEM_CLOSE));
    }
  }

  lemma {:induction false} HeadInlined(p: Piece, rest: string)
    requires PlainPiece(p)
    ensures ReplaceInline(
              p.before + (if p.formula.Inline? then Delimited(p.formula)
                          else STEM_OPEN + TrimSpace(p.formula.body) + STEM_CLOSE) + rest,
              INLINE_OPEN, INLINE_CLOSE)
            == p.before + Stem(p.formula) + ReplaceInline(rest, INLINE_OPEN, INLINE_CLOSE)
  {
    match p.formula
    case Inline(body) => InlineHead(p.before, body, rest, INLINE_OPEN, INLINE_CLOSE);
    case Display(body) =>
      TrimKeepsOut(body, '$');
      StemHasNoDollar();
      PlainPrefix(p.before + (STEM_OPEN + TrimSpace(body) + STEM_CLOSE), rest, INLINE_OPEN, INLINE_CLOSE);
  }

  lemma {:induction false} StemHasNoDollar()
    ensures '$' !in STEM_OPEN && '$' !in STEM_CLOSE
  {
  }

  lemma {:induction false} TargetHasNoDollar(pieces: seq<Piece>, tail: string)
    requires Plain(pieces, tail)
    ensures '$' !in Target(pieces, tail)
  {
    if pieces != [] {
      PlainRest(pieces, tail);
      TargetHasNoDollar(pieces[1..], tail);
      TrimKeepsOut(pieces[0].formula.body, '$');
      StemHasNoDollar();
      assert '$' !in Stem(pieces[0].formula);
    }
  }

  /** A display, and a pair that touches, have two dollars in a row after their first character. */
  lemma {:induction false} DoubleIn(pieces: seq<Piece>, tail: string, j: nat) returns (q: nat)
    requires Plain(pieces, tail) && MakesDouble(pieces, j)
    ensures q >= 2 && DoubleDollarAt(Source(pieces, tail), q)
  {
    if j == 0 {
      q := DoubleAtHead(pieces, tail);
    } else {
      PlainRest(pieces, tail);
      q := DoubleIn(pieces[1..], tail, j - 1);
      q := |pieces[0].before + Delimited(pieces[0].formula)| + q;
    }
  }

  lemma {:induction false} DoubleAtHead(pieces: seq<Piece>, tail: string) returns (q: nat)
    requires Plain(pieces, tail) && MakesDouble(pieces, 0)
    ensures q >= 2 && DoubleDollarAt(Source(pieces, tail), q)
  {
    PlainRest(pieces, tail);
    var n, rest := |pieces[0].before| + |pieces[0].formula.body|, Source(pieces[1..], tail);
    if pieces[0].formula.Display? {
      q := n + 2;
    } else {
      TouchingRest(pieces, tail);
      q := n + 1;
      assert Source(pieces, tail)[q + 1] == rest[0];
    }
  }

  /** A dollar that meets the end of the line first stays. */
  lemma {:induction false} DollarStays(before: string, body: string, x: string, open: string, close: string)
    requires '$' !in before && '$' !in body && '\n' !in body
    ensures '$' in ReplaceInline(before + ['$'] + body + (STEM_OPEN + x), open, close)
  {
    var t, p := before + ['$'] + body + (STEM_OPEN + x), |before|;
    StemHasNoDollar();
    var n := p + 1 + |body|;
    assert forall i :: 0 <= i < p ==> t[i] == before[i];
    assert forall i :: 0 <= i < |body| ==> t[p + 1 + i] == body[i];
    assert forall i :: 0 <= i < |STEM_OPEN| ==> t[n + i] == STEM_OPEN[i];
    var k :| 0 <= k < |STEM_OPEN| && STEM_OPEN[k] == '\n';
    var q := InlineEnd(t, p + 1);
    assert q <= n + k;
    assert q >= n;
    assert t[q] == STEM_OPEN[q - n];
    InlineLater(t, 0, p);
    assert !InlineAt(t, p);
    StartsAfter(t, p, open, close);
  }

  lemma {:induction false} StartsAfter(t: string, p: nat, open: string, close: string)
    requires p < |t| && FindInline(t, 0) == FindInline(t, p) && !InlineAt(t, p)
    ensures t[p] in ReplaceInline(t, open, close)
  {
    var m := FindInline(t, p);
    assert m.Match? ==> m.start > p;
    var out := ReplaceInline(t, open, close);
    if m.Match? {
      assert out[p] == t[..m.start][p];
    }
    assert out[p] == t[p];
  }

  lemma {:induction false} TouchingMatch(before: string, body: string, rest: string, q: nat) returns (e: nat)
    requires '$' !in before && '$' !in body && body != []
    requires |rest| >= 2 && rest[0] == '$' && q >= 2 && DoubleDollarAt(rest, q)
    ensures FindDisplay(before + (['$'] + body + ['$']) + rest) == Match(|before| + 1 + |body|, e)
  {
    var pre := before + (['$'] + body + ['$']);
    TouchingDouble(before, body, rest);
    DoubleDollarShifted(pre, rest, 2);
    assert |pre| + 2 == |before| + 1 + |body| + 3;
    e := |pre| + FindDoubleDollar(rest, 2) + 2;
  }

  lemma {:induction false} RegroupAfter(first: string, open: string, body: string, close: string, after: string)
    ensures first + (open + body + close) + after == first + (open + (body + close + after))
  {
  }

  lemma {:induction false} DisplayBehindDollar(t: string, before: string, body: string, e: nat)
    requires '$' !in before && '$' !in body && '\n' !in body
    requires FindDisplay(t) == Match(|before| + 1 + |body|, e)
    requires t[..|before| + 1 + |body|] == before + ['$'] + body
    ensures '$' in ConvertDollarMath(t)
  {
    var p, first := |before| + 1 + |body|, before + ['$'] + body;
    var formula, others := t[p + 2..e - 2], t[e..];
    DisplayAt(t, p, e, first, formula, others, STEM_OPEN, STEM_CLOSE);
    var inner, after := TrimSpace(formula), ReplaceDisplay(others, STEM_OPEN, STEM_CLOSE);
    RegroupAfter(first, STEM_OPEN, inner, STEM_CLOSE, after);
    DollarStays(before, body, inner + STEM_CLOSE + after, INLINE_OPEN, INLINE_CLOSE);
  }

  /** Where two dollars follow those of a touching pair, they are taken together for a display, and the
      dollar in front stays. */
  lemma {:induction false} TouchingBreaks(before: string, body: string, rest: string, q: nat)
    requires '$' !in before && '$' !in body && '\n' !in body && body != []
    requires |rest| >= 2 && rest[0] == '$' && q >= 2 && DoubleDollarAt(rest, q)
    ensures '$' in ConvertDollarMath(before + (['$'] + body + ['$']) + rest)
  {
    var t := before + (['$'] + body + ['$']) + rest;
    var e := TouchingMatch(before, body, rest, q);
    assert t[..|before| + 1 + |body|] == before + ['$'] + body;
    DisplayBehindDollar(t, before, body, e);
  }

  lemma {:induction false} UnclearKeepsDollar(pieces: seq<Piece>, tail: string)
    requires Plain(pieces, tail) && !Clear(pieces)
    ensures '$' in ConvertDollarMath(Source(pieces, tail))
  {
    PlainRest(pieces, tail);
    ClearRest(pieces, tail);
    var before, rest := pieces[0].before, Source(pieces[1..], tail);
    if Touches(pieces, 0) {
      var j: nat :| MakesDouble(pieces[1..], j);
      var q := DoubleIn(pieces[1..], tail, j);
      TouchingRest(pieces, tail);
      TouchingBreaks(before, pieces[0].formula.body, rest, q);
    } else {
      UnclearKeepsDollar(pieces[1..], tail);
      HeadReplaced(pieces, tail, STEM_OPEN, STEM_CLOSE);
      HeadInlined(pieces[0], ReplaceDisplay(rest, STEM_OPEN, STEM_CLOSE));
    }
  }

  /** For every text with any number of formulas, touching or not: each inline formula becomes a macro
      with its body, each display a block around its trimmed body, and all the text around them stays,
      if and only if behind an inline formula that touches the next one there is no display and no
      further such formula. */
  lemma {:induction false} ConvertedExactly(pieces: seq<Piece>, tail: string)
    requires Plain(pieces, tail)
    ensures ConvertDollarMath(Source(pieces, tail)) == Target(pieces, tail) <==> Clear(pieces)
    ensures Clear(pieces) <==> ReplaceDisplay(Source(pieces, tail), STEM_OPEN, STEM_CLOSE)
                               == DisplaysReplaced(pieces, tail, STEM_OPEN, STEM_CLOSE)
  {
    SecondPass(pieces, tail);
    if Clear(pieces) {
      FirstPass(pieces, tail, STEM_OPEN, STEM_CLOSE);
    } else {
      UnclearKeepsDollar(pieces, tail);
      TargetHasNoDollar(pieces, tail);
    }
  }

  /** In particular when all formulas are kept apart by text. */
  lemma {:induction false} FormulasConverted(pieces: seq<Piece>, tail: string)
    requires Separated(pieces, tail)
    ensures ConvertDollarMath(Source(pieces, tail)) == Target(pieces, tail)
  {
    ConvertedExactly(pieces, tail);
  }

  /** Spelled out: what becomes of one inline formula. */
  lemma {:induction false} InlineSpelledOut()
    ensures ConvertDollarMath(['$', 'a', '$']) == INLINE_OPEN + ['a'] + INLINE_CLOSE == "stem:[a]"
  {
    var pieces := [Piece([], Inline(['a']))];
    assert PlainPiece(pieces[0]);
    FormulasConverted(pieces, []);
    assert INLINE_OPEN + ['a'] + INLINE_CLOSE == "stem:[a]";
    AloneInText(pieces, ['$', 'a', '$'], "stem:[a]");
  }

  lemma {:induction false} FormulaA()
    ensures ConvertDollarMath(['$', 'a', '$']) == INLINE_OPEN + ['a'] + INLINE_CLOSE
  {
    InlineSpelledOut();
  }

  /** And of one display. */
  lemma {:induction false} DisplaySpelledOut()
    ensures ConvertDollarMath(['$', '$', 'a', '$', '$']) == "[stem]\n++++\na\n++++\n"
  {
    var pieces := [Piece([], Display(['a']))];
    assert PlainPiece(pieces[0]);
    FormulasConverted(pieces, []);
    assert TrimSpace(['a']) == ['a'];
    assert STEM_OPEN + ['a'] + STEM_CLOSE == "[stem]\n++++\na\n++++\n";
    AloneInText(pieces, ['$', '$', 'a', '$', '$'], "[stem]\n++++\na\n++++\n");
  }

  lemma {:induction false} AloneInText(pieces: seq<Piece>, source: string, target: string)
    requires |pieces| == 1 && pieces[0].before == []
    requires Delimited(pieces[0].formula) == source && Stem(pieces[0].formula) == target
    ensures Source(pieces, []) == source && Target(pieces, []) == target
  {
    assert pieces[1..] == [];
    assert [] + source + [] == source && [] + target + [] == target;
  }

  // ---------------------------------------------------------------- when the conversion changes a text

  function Dollars(s: string): nat {
    multiset(s)['$']
  }

  /** There is something between dollars for the conversion to find. */
  predicate HasFormula(s: string) {
    FindDisplay(s).Match? || FindInline(s, 0).Match?
  }

  /** The texts differ at a position inside both. */
  ghost predicate Diverge(a: string, b: string) {
    exists k :: 0 <= k < |a| && k < |b| && a[k] != b[k]
  }

  lemma {:induction false} InlineStarts(s: string, p: nat)
    requires p <= |s|
    ensures var m := FindInline(s, p); m.Match? ==> s[m.start] == '$' && s[m.end - 1] == '$'
    decreases |s| - p
  {
    if p < |s| && !InlineAt(s, p) {
      InlineStarts(s, p + 1);
    }
  }

  /** What the second pass makes of the first character of a formula, and of what is before it. */
  lemma {:induction false} InlineOutput(u: string)
    requires FindInline(u, 0).Match?
    ensures var b, out := FindInline(u, 0).start, ReplaceInline(u, INLINE_OPEN, INLINE_CLOSE);
            b < |u| && b < |out| && u[b] == '$' && out[b] == 's' && forall i :: 0 <= i < b ==> out[i] == u[i]
  {
    InlineStarts(u, 0);
    var m := FindInline(u, 0);
    InlineMatchAt(u, m.start, m.end, u[..m.start], u[m.start + 1..m.end - 1], u[m.end..], INLINE_OPEN, INLINE_CLOSE);
    assert INLINE_OPEN[0] == 's';
  }

  lemma {:induction false} DisplayOutput(s: string)
    requires FindDisplay(s).Match?
    ensures var p, u := FindDisplay(s).start, ReplaceDisplay(s, STEM_OPEN, STEM_CLOSE);
            p < |s| && p < |u| && s[p] == '$' && u[p] == '[' && forall i :: 0 <= i < p ==> u[i] == s[i]
  {
    var m := FindDisplay(s);
    DisplayAt(s, m.start, m.end, s[..m.start], s[m.start + 2..m.end - 2], s[m.end..], STEM_OPEN, STEM_CLOSE);
    assert STEM_OPEN[0] == '[';
  }

  /** A text with a formula and what becomes of it differ at the first formula found by either pass. */
  lemma {:induction false} FormulaDiverges(s: string)
    requires HasFormula(s)
    ensures Diverge(s, ConvertDollarMath(s))
  {
    var u := ReplaceDisplay(s, STEM_OPEN, STEM_CLOSE);
    var out, m := ReplaceInline(u, INLINE_OPEN, INLINE_CLOSE), FindInline(u, 0);
    if m.Match? {
      InlineOutput(u);
    }
    if FindDisplay(s).Match? {
      DisplayOutput(s);
      var p := FindDisplay(s).start;
      if m.Match? && m.start < p {
        assert s[m.start] != out[m.start];
      } else {
        assert s[p] != out[p];
      }
    } else {
      assert s[m.start] != out[m.start];
    }
  }

  /** The conversion changes exactly the texts that have a formula. */
  lemma {:induction false} ConversionExact(s: string)
    ensures ConvertDollarMath(s) == s <==> !HasFormula(s)
  {
    if HasFormula(s) {
      FormulaDiverges(s);
    }
  }

  /** Dollars that cannot be paired are left as they are: it takes two to make a formula. */
  lemma {:induction false} StrayDollarUnchanged(s: string)
    requires Dollars(s) <= 1
    ensures !HasFormula(s) && ConvertDollarMath(s) == s
  {
    ConversionExact(s);
    var d, m := FindDisplay(s), FindInline(s, 0);
    if d.Match? {
      TwoDollars(s, d.start, d.start + 1);
    } else if m.Match? {
      InlineStarts(s, 0);
      TwoDollars(s, m.start, m.end - 1);
    }
  }

  lemma {:induction false} TwoDollars(s: string, i: nat, j: nat)
    requires i < j < |s| && s[i] == '$' && s[j] == '$'
    ensures Dollars(s) >= 2
  {
    assert s == s[..j] + s[j..];
    assert s[..j][i] == '$' && s[j..][0] == '$';
    assert multiset(s) == multiset(s[..j]) + multiset(s[j..]);
  }

  /** Two inline formulas that touch are both converted: two dollars in the middle are no display. */
  lemma {:induction false} TouchingInlines(a: string, b: string)
    requires a != [] && '$' !in a && '\n' !in a
    requires b != [] && '$' !in b && '\n' !in b
    ensures ConvertDollarMath(['$'] + a + ['$'] + (['$'] + b + ['$']))
            == INLINE_OPEN + a + INLINE_CLOSE + (INLINE_OPEN + b + INLINE_CLOSE)
  {
    ConvertedExactly([Piece([], Inline(a)), Piece([], Inline(b))], []);
    TwoFormulas(Inline(a), Inline(b));
  }

  lemma {:induction false} TwoFormulas(f: Formula, g: Formula)
    ensures var pieces := [Piece([], f), Piece([], g)];
            Source(pieces, []) == Delimited(f) + Delimited(g) && Target(pieces, []) == Stem(f) + Stem(g)
  {
    OneFormula(g);
    assert [Piece([], f), Piece([], g)][1..] == [Piece([], g)];
    assert [] + Delimited(f) == Delimited(f) && [] + Stem(f) == Stem(f);
  }

  lemma {:induction false} OneFormula(f: Formula)
    ensures Source([Piece([], f)], []) == Delimited(f) && Target([Piece([], f)], []) == Stem(f)
  {
    AloneInText([Piece([], f)], Delimited(f), Stem(f));
  }

  /** With three of them the one in the middle is taken for a display, and the outer dollars stay. */
  lemma {:induction false} ThreeTouchingInlines()
    ensures ConvertDollarMath(['$', 'a', '$', '$', 'b', '$', '$', 'c', '$'])
            == ['$', 'a'] + STEM_OPEN + ['b'] + STEM_CLOSE + ['c', '$']
  {
    var s := ['$', 'a', '$', '$', 'b', '$', '$', 'c', '$'];
    assert FindDisplay(s) == Match(2, 7) by {
      assert !DoubleDollarAt(s, 0) && !DoubleDollarAt(s, 1) && DoubleDollarAt(s, 2) && DoubleDollarAt(s, 5);
      DoubleDollarLater(s, 0, 2);
    }
    DisplayAt(s, 2, 7, ['$', 'a'], ['b'], ['c', '$'], STEM_OPEN, STEM_CLOSE);
    assert FindDisplay(['c', '$']).NoMatch?;
    assert TrimSpace(['b']) == ['b'];
    var t := ['$', 'a'] + (STEM_OPEN + ['b'] + STEM_CLOSE) + ['c', '$'];
    assert ReplaceDisplay(s, STEM_OPEN, STEM_CLOSE) == t;
    DollarAndLine(['a'] + STEM_OPEN, ['b'] + STEM_CLOSE + ['c']);
    assert t == ['$'] + (['a'] + STEM_OPEN) + (['b'] + STEM_CLOSE + ['c']) + ['$'];
  }

  /** Two dollars on different lines are no inline formula. */
  lemma {:induction false} DollarAndLine(a: string, b: string)
    requires '$' !in a && '$' !in b && '\n' in a
    ensures FindInline(['$'] + a + b + ['$'], 0).NoMatch?
  {
    var t := ['$'] + a + b + ['$'];
    assert forall i :: 0 <= i < |a| ==> t[i + 1] == a[i];
    assert forall i :: 0 <= i < |b| ==> t[i + 1 + |a|] == b[i];
    var n :| 0 <= n < |a| && a[n] == '\n';
    assert t[n + 1] == '\n';
    var q := InlineEnd(t, 1);
    assert q <= n + 1;
    assert t[q] == a[q - 1];
    assert !InlineAt(t, 0);
    InlineLater(t, 1, |t| - 1);
    assert !InlineAt(t, |t| - 1);
  }

  // ---------------------------------------------------------------- normalization

  /** What position parity makes of a list of texts. */
  function Rendered(texts: seq<string>): (pieces: seq<string>)
    ensures |pieces| == |texts|
  {
    seq(|texts|, k requires 0 <= k < |texts| => if k % 2 == 0 then ConvertDollarMath(texts[k]) else texts[k])
  }

  /** What the kinds of the segments call for. */
  function Intended(segments: seq<Segment>): (pieces: seq<string>)
    ensures |pieces| == |segments|
  {
    seq(|segments|, k requires 0 <= k < |segments| =>
      if segments[k].kind == Code then segments[k].text else ConvertDollarMath(segments[k].text))
  }

  lemma {:induction false} FlattenSnoc(texts: seq<string>, i: nat)
    requires i < |texts|
    ensures Flatten(texts[..i + 1]) == Flatten(texts[..i]) + texts[i]
  {
    assert texts[..i + 1] == texts[..i] + [texts[i]];
    FlattenAppend(texts[..i], [texts[i]]);
    FlattenPair(texts[i], []);
  }

  method NormalizeDollarMath(src: string) returns (out: string)
    ensures out == Flatten(Rendered(Texts(Regions(src, 0))))
  {
    if src == [] {
      return src;
    }
    var segments := SplitCodeRegions(src);
    out := [];
    for i := 0 to |segments|
      invariant out == Flatten(Rendered(segments)[..i])
    {
      FlattenSnoc(Rendered(segments), i);
      if i % 2 == 0 {
        out := out + ConvertDollarMath(segments[i]);
      } else {
        out := out + segments[i];
      }
    }
    assert Rendered(segments)[..|segments|] == Rendered(segments);
  }

  /** What comes of the text from pos on, if a segment of even position begins there. */
  function Output(src: string, pos: nat): string
    requires pos <= |src|
  {
    Flatten(Rendered(Texts(Regions(src, pos))))
  }

  /** Code that the scanner finds is copied byte for byte, what is before it is converted, and the rest is
      treated as if it stood alone. */
  lemma {:induction false} CodeIsCopied(src: string, pos: nat, p: nat, next: nat)
    requires CodeUpTo(src, pos, p, next)
    ensures Output(src, pos) == ConvertDollarMath(src[pos..p]) + src[p..next] + Output(src, next)
  {
    CodeInRegions(src, pos, p, next);
    OutputOf(Regions(src, pos), src[pos..p], src[p..next], Regions(src, next));
  }

  lemma {:induction false} OutputOf(all: seq<Segment>, a: string, b: string, rest: seq<Segment>)
    requires all == [Segment(Outside, a), Segment(Code, b)] + rest
    ensures Flatten(Rendered(Texts(all))) == ConvertDollarMath(a) + b + Flatten(Rendered(Texts(rest)))
  {
    assert Texts(all) == [a, b] + Texts(rest);
    TwoRendered(a, b, Texts(rest), ConvertDollarMath(a));
    FlattenAppend([ConvertDollarMath(a), b], Rendered(Texts(rest)));
    FlattenPair(ConvertDollarMath(a), b);
  }

  lemma {:induction false} TwoRendered(a: string, b: string, rest: seq<string>, converted: string)
    requires converted == ConvertDollarMath(a)
    ensures Rendered([a, b] + rest) == [converted, b] + Rendered(rest)
  {
    var texts := [a, b] + rest;
    var all, tail := Rendered(texts), Rendered(rest);
    assert |all| == |rest| + 2 && all[0] == converted && all[1] == b;
    forall k | 0 <= k < |rest|
      ensures all[k + 2] == tail[k]
    {
      assert texts[k + 2] == rest[k];
      RenderedTwoOn(texts, rest, k);
    }
    JoinedAt(all, converted, b, tail);
  }

  lemma {:induction false} RenderedTwoOn(texts: seq<string>, rest: seq<string>, k: nat)
    requires k < |rest| && |texts| == |rest| + 2 && texts[k + 2] == rest[k]
    ensures Rendered(texts)[k + 2] == Rendered(rest)[k]
  {
    assert (k + 2) % 2 == k % 2;
  }

  lemma {:induction false} JoinedAt(all: seq<string>, x: string, y: string, tail: seq<string>)
    requires |all| == |tail| + 2 && all[0] == x && all[1] == y
    requires forall k :: 0 <= k < |tail| ==> all[k + 2] == tail[k]
    ensures all == [x, y] + tail
  {
    forall k | 2 <= k < |all|
      ensures all[k] == ([x, y] + tail)[k]
    {
      assert all[(k - 2) + 2] == tail[k - 2];
    }
  }

  /** Position and kind disagree about segment k. */
  predicate Misplaced(segments: seq<Segment>, k: nat)
    requires k < |segments|
  {
    (segments[k].kind == Code) != (k % 2 == 1)
  }

  /** Equal lists of texts up to a first pair that diverges: what they join to differs. */
  lemma {:induction false} FlattenDiverges(a: seq<string>, b: seq<string>, k: nat)
    requires k < |a| == |b| && a[..k] == b[..k] && Diverge(a[k], b[k])
    ensures Flatten(a) != Flatten(b)
  {
    FlattenAt(a, k);
    FlattenAt(b, k);
    var i :| 0 <= i < |a[k]| && i < |b[k]| && a[k][i] != b[k][i];
    var n := |Flatten(a[..k])|;
    assert Flatten(a)[n + i] == a[k][i] && Flatten(b)[n + i] == b[k][i];
  }

  lemma {:induction false} FlattenAt(texts: seq<string>, k: nat)
    requires k < |texts|
    ensures Flatten(texts) == Flatten(texts[..k]) + (texts[k] + Flatten(texts[k + 1..]))
  {
    assert texts == texts[..k] + texts[k..];
    FlattenAppend(texts[..k], texts[k..]);
    assert texts[k..][0] == texts[k] && texts[k..][1..] == texts[k + 1..];
  }

  lemma {:induction false} FirstDifference(a: seq<string>, b: seq<string>) returns (k: nat)
    requires |a| == |b| && a != b
    ensures k < |a| && a[..k] == b[..k] && a[k] != b[k]
  {
    k := 0;
    while a[k] == b[k]
      invariant k < |a| && a[..k] == b[..k]
      decreases |a| - k
    {
      assert a[..k + 1] == a[..k] + [a[k]] && b[..k + 1] == b[..k] + [b[k]];
      k := k + 1;
    }
  }

  /** Pieces of the two outputs that differ, diverge. */
  lemma {:induction false} PiecesDiverge(segments: seq<Segment>, k: nat)
    requires k < |segments|
    ensures Rendered(Texts(segments))[k] == Intended(segments)[k] <==>
            (Misplaced(segments, k) ==> !HasFormula(segments[k].text))
    ensures Rendered(Texts(segments))[k] != Intended(segments)[k] ==>
              Diverge(Rendered(Texts(segments))[k], Intended(segments)[k])
  {
    var text := segments[k].text;
    ConversionExact(text);
    if HasFormula(text) {
      FormulaDiverges(text);
      var i :| 0 <= i < |text| && i < |ConvertDollarMath(text)| && text[i] != ConvertDollarMath(text)[i];
      assert Diverge(ConvertDollarMath(text), text);
    }
  }

  /** The output is the intended one, code byte for byte and everything else converted, if and only if
      no segment whose position and kind disagree has a formula, piece by piece and as a whole; in
      particular unless an unmatched backtick run is followed by more text. */
  lemma {:induction false} NormalizedAsIntended(src: string)
    ensures var segments := Regions(src, 0);
            && (Flatten(Rendered(Texts(segments))) == Flatten(Intended(segments)) <==>
                forall k :: 0 <= k < |segments| && Misplaced(segments, k) ==> !HasFormula(segments[k].text))
            && (Rendered(Texts(segments)) == Intended(segments) <==>
                forall k :: 0 <= k < |segments| && Misplaced(segments, k) ==> !HasFormula(segments[k].text))
            && (!EarlyUnmatched(segments) ==> Rendered(Texts(segments)) == Intended(segments))
  {
    var segments := Regions(src, 0);
    var a, b := Rendered(Texts(segments)), Intended(segments);
    forall k | 0 <= k < |segments|
      ensures a[k] == b[k] <==> (Misplaced(segments, k) ==> !HasFormula(segments[k].text))
    {
      PiecesDiverge(segments, k);
    }
    if a != b {
      var k := FirstDifference(a, b);
      PiecesDiverge(segments, k);
      FlattenDiverges(a, b, k);
    }
    ParityExact(src);
    if !EarlyUnmatched(segments) {
      assert forall k :: 0 <= k < |segments| ==> !Misplaced(segments, k);
    }
  }

  /** Enough for that: no such segment has more than one dollar. */
  lemma {:induction false} FewDollarsNormalize(src: string)
    requires forall k :: 0 <= k < |Regions(src, 0)| && Misplaced(Regions(src, 0), k) ==>
               Dollars(Regions(src, 0)[k].text) <= 1
    ensures Rendered(Texts(Regions(src, 0))) == Intended(Regions(src, 0))
  {
    var segments := Regions(src, 0);
    forall k | 0 <= k < |segments| && Misplaced(segments, k)
      ensures !HasFormula(segments[k].text)
    {
      StrayDollarUnchanged(segments[k].text);
    }
    NormalizedAsIntended(src);
  }

  /** A text with no dollar at an even position comes out unchanged. */
  lemma {:induction false} NoDollarsOutsideCode(src: string)
    requires forall k :: 0 <= k < |Regions(src, 0)| && k % 2 == 0 ==> '$' !in Regions(src, 0)[k].text
    ensures Flatten(Rendered(Texts(Regions(src, 0)))) == src
  {
    var texts := Texts(Regions(src, 0));
    forall k | 0 <= k < |texts|
      ensures Rendered(texts)[k] == texts[k]
    {
      if k % 2 == 0 {
        NoDollarUnchanged(texts[k]);
      }
    }
    assert Rendered(texts) == texts;
    RegionsLossless(src, 0);
    assert src[0..] == src;
  }

  // ---------------------------------------------------------------- the stem header

  const STEM_ATTRIBUTE: string := ":stem:"
  const LATEXMATH: string := "latexmath"
  const STEM_HEADER: string := ":stem: latexmath\n"

  function SkipSpaces(s: string, p: nat): (e: nat)
    requires p <= |s|
    ensures p <= e <= |s|
    decreases |s| - p
  {
    if p < |s| && s[p] in {' ', '\t', '\n', '\r', 12 as char} then SkipSpaces(s, p + 1) else p
  }

  /** A line that begins with the attribute, white space and the value. */
  predicate StemHeaderAt(s: string, p: nat) {
    && p <= |s| && (p == 0 || s[p - 1] == '\n')
    && HasAt(s, p, STEM_ATTRIBUTE)
    && HasAt(s, SkipSpaces(s, p + |STEM_ATTRIBUTE|), LATEXMATH)
  }

  predicate HasStemHeader(s: string) {
    exists p :: 0 <= p <= |s| && StemHeaderAt(s, p)
  }

  function InjectStemHeader(src: string): string {
    if HasStemHeader(src) then src else STEM_HEADER + src
  }

  /** The header is there afterwards, the text is kept below it, and a second injection adds
      nothing. */
  lemma {:induction false} InjectIdempotent(src: string)
    ensures HasStemHeader(InjectStemHeader(src))
    ensures InjectStemHeader(InjectStemHeader(src)) == InjectStemHeader(src)
    ensures |src| <= |InjectStemHeader(src)| && InjectStemHeader(src)[|InjectStemHeader(src)| - |src|..] == src
  {
    var out := STEM_HEADER + src;
    assert out[..6] == STEM_HEADER[..6] == STEM_ATTRIBUTE;
    assert out[6] == ' ' && out[7] == 'l';
    assert SkipSpaces(out, 7) == 7;
    assert SkipSpaces(out, 6) == 7;
    assert out[7..16] == STEM_HEADER[7..16] == LATEXMATH;
    assert StemHeaderAt(out, 0);
  }

  /** A text is left as it is exactly when some line of it begins with the attribute, any white space, and
      the value; otherwise it gets the header as its first line. */
  lemma {:induction false} InjectsExactly(src: string)
    ensures if exists p: nat, q: nat :: DeclaresStem(src, p, q) then InjectStemHeader(src) == src
            else InjectStemHeader(src) == ":stem: latexmath\n" + src
  {
    if p: nat, q: nat :| DeclaresStem(src, p, q) {
      DeclaredMeans(src, p, q);
    }
    if HasStemHeader(src) {
      var p :| 0 <= p <= |src| && StemHeaderAt(src, p);
      HeaderMeans(src, p);
    }
  }

  lemma {:induction false} DeclaredMeans(src: string, p: nat, q: nat)
    requires DeclaresStem(src, p, q)
    ensures p <= |src| && StemHeaderAt(src, p)
  {
    assert src[q] == src[q..q + 9][0];
    SpacesEnd(src, p + 6, q);
  }

  lemma {:induction false} HeaderMeans(src: string, p: nat)
    requires p <= |src| && StemHeaderAt(src, p)
    ensures exists q: nat :: DeclaresStem(src, p, q)
  {
    SpacesSkipped(src, p + 6);
    assert DeclaresStem(src, p, SkipSpaces(src, p + 6));
  }

  /** A line begins at p with :stem:, and after white space only the value stands at q. */
  ghost predicate DeclaresStem(s: string, p: nat, q: nat) {
    && p + 6 <= q && q + 9 <= |s|
    && (p == 0 || s[p - 1] == '\n') && s[p..p + 6] == ":stem:" && s[q..q + 9] == "latexmath"
    && forall i :: p + 6 <= i < q ==> IsWhite(s[i])
  }

  predicate IsWhite(c: char) {
    c == ' ' || c == '\t' || c == '\n' || c == '\r' || c == 12 as char
  }

  lemma {:induction false} SpacesSkipped(s: string, p: nat)
    requires p <= |s|
    ensures forall i :: p <= i < SkipSpaces(s, p) ==> IsWhite(s[i])
    decreases |s| - p
  {
    if p < |s| && IsWhite(s[p]) {
      SpacesSkipped(s, p + 1);
    }
  }

  lemma {:induction false} SpacesEnd(s: string, p: nat, q: nat)
    requires p <= q < |s| && (forall i :: p <= i < q ==> IsWhite(s[i])) && !IsWhite(s[q])
    ensures SkipSpaces(s, p) == q
    decreases q - p
  {
    if p < q {
      SpacesEnd(s, p + 1, q);
    }
  }

  // ---------------------------------------------------------------- where the convention breaks

  /** The turn that meets a backtick with no other behind it. */
  lemma {:induction false} LoneBacktickTurn(src: string)
    requires src != [] && src[0] == '`' && '`' !in src[1..]
    ensures NextCut(src, 0) == Cut([Segment(Unmatched, src[0..1])], 1)
  {
  }

  /** The turn that meets no more code. */
  lemma {:induction false} LastTurn(src: string, pos: nat)
    requires pos < |src| && '`' !in src[pos..] && FindFence(src, pos, pos).NoMatch?
    ensures NextCut(src, pos) == Cut([Segment(Outside, src[pos..])], |src|)
  {
  }

  lemma {:induction false} LoneBacktickRegions(src: string)
    requires |src| > 1 && src[0] == '`' && '`' !in src[1..] && FindFence(src, 1, 1).NoMatch?
    ensures Regions(src, 0) == [Segment(Unmatched, src[0..1]), Segment(Outside, src[1..])]
  {
    LoneBacktickTurn(src);
    LastTurn(src, 1);
    RegionsUnfold(src, 0);
    RegionsUnfold(src, 1);
  }

  lemma {:induction false} UnmatchedThenOutside(regions: seq<Segment>, a: string, b: string)
    requires regions == [Segment(Unmatched, a), Segment(Outside, b)] && '$' !in a
    ensures EarlyUnmatched(regions)
    ensures Rendered(Texts(regions)) == Texts(regions)
  {
    NoDollarUnchanged(a);
    assert regions[0].kind == Unmatched;
    var texts := Texts(regions);
    assert texts == [a, b];
    assert Rendered(texts)[0] == a && Rendered(texts)[1] == b;
  }

  /** A lone backtick shields whatever follows it on to the end: nothing there is converted. */
  lemma {:induction false} LoneBacktickShields(src: string)
    requires |src| > 1 && src[0] == '`' && '`' !in src[1..] && FindFence(src, 1, 1).NoMatch?
    ensures EarlyUnmatched(Regions(src, 0))
    ensures Rendered(Texts(Regions(src, 0))) == Texts(Regions(src, 0))
  {
    LoneBacktickRegions(src);
    UnmatchedThenOutside(Regions(src, 0), src[0..1], src[1..]);
  }

  /** So the output is not always the intended one: a backtick and then a formula comes out as it is. */
  lemma {:induction false} EarlyUnmatchedBreaksConversion(src: string)
    requires src == ['`', '$', 'a', '$']
    ensures EarlyUnmatched(Regions(src, 0))
    ensures Flatten(Rendered(Texts(Regions(src, 0)))) == src
    ensures Flatten(Intended(Regions(src, 0))) == ['`'] + (INLINE_OPEN + ['a'] + INLINE_CLOSE)
    ensures Flatten(Rendered(Texts(Regions(src, 0)))) != Flatten(Intended(Regions(src, 0)))
  {
    var t := ['$', 'a', '$'];
    assert FindFence(src, 1, 1).NoMatch?;
    assert src[1..] == t && src[0..1] == ['`'];
    LoneBacktickShields(src);
    LoneBacktickRegions(src);
    RegionsLossless(src, 0);
    assert src[0..] == src;
    var regions := Regions(src, 0);
    FormulaA();
    NoDollarUnchanged(['`']);
    var intended := Intended(regions);
    assert intended == [['`'], INLINE_OPEN + ['a'] + INLINE_CLOSE];
    FlattenPair(['`'], INLINE_OPEN + ['a'] + INLINE_CLOSE);
    assert |Flatten(intended)| != |src|;
  }
}
