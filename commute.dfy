/** The primitive commutation engine of darcs_commute.h: the line
  * arithmetic of two hunks, the per-kind table of commuteFP, the retry
  * through inverses of cleverCommute, and commute2, which decides whether
  * two primitive patches commute and what they become.
  *
  * tryTokReplace, the rewriting of one line by a token replacement, is a
  * parameter `tr` of every member that needs it: its character-class engine
  * is not part of this model. */
module Commute {
  import opened Wrappers
  import opened Patches

  /** tryTokReplace(t, o, n, line): the line with every whole token `o`
    * replaced by `n`, or None when the line already holds the token `n`. */
  type TokRewriter = (string, Token, Token, string) -> Option<string>

  /** A rewriter whose every successful rewrite is undone by the opposite
    * replacement. The real tryTokReplace refuses a line that holds the new
    * token, so after replacing `o` by `n` the line holds no `o` that the
    * opposite replacement could confuse with a rewritten one. */
  ghost predicate TokInverse(tr: TokRewriter)
  {
    forall t, o, n, s :: tr(t, o, n, s).Some? ==> tr(t, n, o, tr(t, o, n, s).value) == Some(s)
  }

  /** PERHAPHS_E and Perhaps<T>: a commute that is not decided by this rule,
    * that is known to fail, or that succeeded with a value. */
  datatype Perhaps<T> = Unknown | Failed | Succeeded(value: T)

  // ---------------------------------------------------------------------
  // tryTokReplaces

  /** tryTokReplaces: every line rewritten, in order, or None as soon as one
    * line cannot be. */
  function TokReplaceAll(tr: TokRewriter, t: string, o: Token, n: Token, lines: seq<string>): (r: Option<seq<string>>)
    ensures r.Some? <==> forall i :: 0 <= i < |lines| ==> tr(t, o, n, lines[i]).Some?
    ensures r.Some? ==> |r.value| == |lines|
    ensures r.Some? ==> forall i :: 0 <= i < |lines| ==> r.value[i] == tr(t, o, n, lines[i]).value
    decreases |lines|
  {
    if lines == [] then Some([])
    else
      match tr(t, o, n, lines[0])
      case None => None
      case Some(first) =>
        match TokReplaceAll(tr, t, o, n, lines[1..])
        case None => None
        case Some(rest) => Some([first] + rest)
  }

  /** The loop of tryTokReplaces: push each rewritten line onto the result,
    * giving up on the first line that cannot be rewritten. */
  method TryTokReplaces(tr: TokRewriter, t: string, o: Token, n: Token, items: seq<string>) returns (r: Option<seq<string>>)
    ensures r == TokReplaceAll(tr, t, o, n, items)
  {
    var result: seq<string> := [];
    var i := 0;
    while i < |items|
      invariant 0 <= i <= |items|
      invariant |result| == i
      invariant forall k :: 0 <= k < i ==> tr(t, o, n, items[k]).Some? && result[k] == tr(t, o, n, items[k]).value
    {
      var m := tr(t, o, n, items[i]);
      if m.None? {
        assert !tr(t, o, n, items[i]).Some?;
        return None;
      }
      result := result + [m.value];
      i := i + 1;
    }
    r := Some(result);
    assert result == TokReplaceAll(tr, t, o, n, items).value;
  }

  /** Rewriting every line and then rewriting back with the opposite
    * replacement gives the lines back. */
  lemma TokReplaceAllInverse(tr: TokRewriter, t: string, o: Token, n: Token, lines: seq<string>)
    requires TokInverse(tr)
    requires TokReplaceAll(tr, t, o, n, lines).Some?
    ensures TokReplaceAll(tr, t, n, o, TokReplaceAll(tr, t, o, n, lines).value) == Some(lines)
  {
    var back := TokReplaceAll(tr, t, n, o, TokReplaceAll(tr, t, o, n, lines).value);
    assert back.Some?;
    assert back.value == lines;
  }

  // ---------------------------------------------------------------------
  // commuteHunkLines

  /** commuteHunkLines: the new line numbers (of the second hunk, of the
    * first) when a hunk at `line2` that follows a hunk at `line1` is moved in
    * front of it. The hunks commute when the second lies wholly after the
    * first one's new lines or wholly before its old lines; touching hunks
    * commute only when none of the four line lists is empty. */
  function CommuteHunkLines(line1: nat, lenOld1: nat, lenNew1: nat, line2: nat, lenOld2: nat, lenNew2: nat): (r: Option<(nat, nat)>)
    ensures r.Some? <==>
      || line1 + lenNew1 < line2
      || line2 + lenOld2 < line1
      || (HunkLengthsNonZero(lenOld1, lenNew1, lenOld2, lenNew2) && (line1 + lenNew1 == line2 || line2 + lenOld2 == line1))
    ensures r.Some? ==>
      || (r.value.1 == line1 && r.value.0 + lenNew1 == line2 + lenOld1 && line1 + lenOld1 <= r.value.0)
      || (r.value.0 == line2 && r.value.1 + lenOld2 == line1 + lenNew2 && line2 + lenNew2 <= r.value.1)
  {
    if line1 + lenNew1 < line2 then Some((line2 - lenNew1 + lenOld1, line1))
    else if line2 + lenOld2 < line1 then Some((line2, line1 + lenNew2 - lenOld2))
    else if lenOld2 != 0 && lenOld1 != 0 && lenNew2 != 0 && lenNew1 != 0 && line1 + lenNew1 == line2 then
      Some((line2 - lenNew1 + lenOld1, line1))
    else if lenOld2 != 0 && lenOld1 != 0 && lenNew2 != 0 && lenNew1 != 0 && line2 + lenOld2 == line1 then
      Some((line2, line1 + lenNew2 - lenOld2))
    else None
  }

  /** None of the four line lists of two hunks is empty. */
  predicate HunkLengthsNonZero(lenOld1: nat, lenNew1: nat, lenOld2: nat, lenNew2: nat)
  {
    lenOld1 != 0 && lenNew1 != 0 && lenOld2 != 0 && lenNew2 != 0
  }

  /** Hunks clear of each other commute. A second hunk wholly after the first
    * one's new lines moves up by the first one's growth and leaves the first
    * where it is; a second hunk wholly before the first one's old lines stays
    * where it is and moves the first by its own growth. */
  lemma DisjointHunksCommute(line1: nat, lenOld1: nat, lenNew1: nat, line2: nat, lenOld2: nat, lenNew2: nat)
    ensures line1 + lenNew1 < line2 ==>
      CommuteHunkLines(line1, lenOld1, lenNew1, line2, lenOld2, lenNew2) == Some((line2 - lenNew1 + lenOld1, line1))
    ensures line2 + lenOld2 < line1 ==>
      CommuteHunkLines(line1, lenOld1, lenNew1, line2, lenOld2, lenNew2) == Some((line2, line1 + lenNew2 - lenOld2))
  {
  }

  /** Hunks that touch, the second starting where the first one's new lines
    * end or ending where the first one's old lines start, commute exactly
    * when none of the four line lists is empty, and then take the same
    * numbers as hunks clear of each other. */
  lemma TouchingHunksCommute(line1: nat, lenOld1: nat, lenNew1: nat, line2: nat, lenOld2: nat, lenNew2: nat)
    requires line1 + lenNew1 == line2 || line2 + lenOld2 == line1
    ensures CommuteHunkLines(line1, lenOld1, lenNew1, line2, lenOld2, lenNew2).Some? <==>
      HunkLengthsNonZero(lenOld1, lenNew1, lenOld2, lenNew2)
    ensures HunkLengthsNonZero(lenOld1, lenNew1, lenOld2, lenNew2) && line1 + lenNew1 == line2 ==>
      CommuteHunkLines(line1, lenOld1, lenNew1, line2, lenOld2, lenNew2) == Some((line2 - lenNew1 + lenOld1, line1))
    ensures HunkLengthsNonZero(lenOld1, lenNew1, lenOld2, lenNew2) && line2 + lenOld2 == line1 ==>
      CommuteHunkLines(line1, lenOld1, lenNew1, line2, lenOld2, lenNew2) == Some((line2, line1 + lenNew2 - lenOld2))
  {
  }

  /** Three lines inserted at line 1 and two more inserted at line 5: the
    * later insertion, done first, goes in at line 2. */
  lemma InsertionsCommute()
    ensures CommuteHunkLines(1, 0, 3, 5, 0, 2) == Some((2, 1))
    ensures CommuteHunkLines(1, 0, 3, 4, 0, 2).None?
  {
  }

  /** Symmetry: commuting the two results back, each with its own line
    * lists, restores the original line numbers. */
  lemma CommuteHunkLinesSymmetric(line1: nat, lenOld1: nat, lenNew1: nat, line2: nat, lenOld2: nat, lenNew2: nat)
    requires CommuteHunkLines(line1, lenOld1, lenNew1, line2, lenOld2, lenNew2).Some?
    ensures
      var (m2, m1) := CommuteHunkLines(line1, lenOld1, lenNew1, line2, lenOld2, lenNew2).value;
      CommuteHunkLines(m2, lenOld2, lenNew2, m1, lenOld1, lenNew1) == Some((line1, line2))
  {
  }

  /** The inverted hunks, taken in the opposite order, commute to the
    * inverses of the results. */
  lemma CommuteHunkLinesInverted(line1: nat, lenOld1: nat, lenNew1: nat, line2: nat, lenOld2: nat, lenNew2: nat)
    requires CommuteHunkLines(line1, lenOld1, lenNew1, line2, lenOld2, lenNew2).Some?
    ensures
      var (m2, m1) := CommuteHunkLines(line1, lenOld1, lenNew1, line2, lenOld2, lenNew2).value;
      CommuteHunkLines(line2, lenNew2, lenOld2, line1, lenNew1, lenOld1) == Some((m1, m2))
  {
  }

  /** Two hunks that sit on the same lines, one replacing what the other
    * wrote, never commute. */
  lemma OverlappingHunksDoNotCommute(line: nat, lenOld1: nat, lenNew1: nat, lenOld2: nat, lenNew2: nat)
    requires lenNew1 > 0
    ensures CommuteHunkLines(line, lenOld1, lenNew1, line, lenOld2, lenNew2) == None
  {
  }

  // ---------------------------------------------------------------------
  // What a hunk does to a file, and why commuteHunkLines is right

  /** A hunk applied to the lines of a file: `oldLines` must stand at index
    * `line`; they are replaced by `newLines`. The core never applies a hunk;
    * this is the meaning of a FileHunk against which commuteHunkLines is
    * judged. Lines are indexed from 0 here, while the sample histories
    * number them from 1; commuteHunkLines only compares and shifts line
    * numbers, so the offset does not change what it decides. */
  function ApplyHunk(f: seq<string>, line: nat, oldLines: seq<string>, newLines: seq<string>): (r: Option<seq<string>>)
    ensures r.Some? <==> line + |oldLines| <= |f| && f[line..line + |oldLines|] == oldLines
    ensures r.Some? ==> |r.value| == |f| - |oldLines| + |newLines| && r.value[line..line + |newLines|] == newLines
    ensures r.Some? ==> r.value[..line] == f[..line] && r.value[line + |newLines|..] == f[line + |oldLines|..]
  {
    if line + |oldLines| <= |f| && f[line..line + |oldLines|] == oldLines then
      Some(f[..line] + newLines + f[line + |oldLines|..])
    else None
  }

  /** Apply one hunk, then another. */
  function ApplyBoth(f: seq<string>, l1: nat, o1: seq<string>, n1: seq<string>, l2: nat, o2: seq<string>, n2: seq<string>): Option<seq<string>>
  {
    match ApplyHunk(f, l1, o1, n1)
    case None => None
    case Some(g) => ApplyHunk(g, l2, o2, n2)
  }

  /** Replacing a later stretch [c, d) first leaves the earlier stretch
    * [a, b) where it was; replacing it then gives both replacements. */
  lemma SpliceLaterFirst(f: seq<string>, a: nat, b: nat, c: nat, d: nat, x: seq<string>, y: seq<string>)
    requires a <= b <= c <= d <= |f|
    ensures var g := f[..c] + y + f[d..];
      b <= |g| && g[a..b] == f[a..b] && g[..a] + x + g[b..] == f[..a] + x + f[b..c] + y + f[d..]
  {
    var g := f[..c] + y + f[d..];
    assert g[..a] == f[..a];
    assert g[a..b] == f[a..b];
    assert g[b..] == f[b..c] + y + f[d..];
  }

  /** Replacing the earlier stretch [a, b) by `x` first moves the later
    * stretch [c, d) by |x| - (b - a); replacing it there gives both
    * replacements. */
  lemma SpliceEarlierFirst(f: seq<string>, a: nat, b: nat, c: nat, d: nat, x: seq<string>, y: seq<string>)
    requires a <= b <= c <= d <= |f|
    ensures var g := f[..a] + x + f[b..]; var s := c - b + a + |x|;
      s + (d - c) <= |g| && g[s..s + (d - c)] == f[c..d] &&
      g[..s] + y + g[s + (d - c)..] == f[..a] + x + f[b..c] + y + f[d..]
  {
    var g := f[..a] + x + f[b..];
    var s := c - b + a + |x|;
    assert g[..s] == f[..a] + x + f[b..c];
    assert g[s..s + (d - c)] == f[c..d];
    assert g[s + (d - c)..] == f[d..];
  }

  /** A hunk that lies at or after the new lines of the hunk before it can
    * be applied first, further down by the growth of that hunk, with the
    * same outcome on every file. */
  lemma LaterHunkFirst(f: seq<string>, l1: nat, o1: seq<string>, n1: seq<string>, l2: nat, o2: seq<string>, n2: seq<string>, m2: nat)
    requires l1 + |n1| <= l2 && m2 == l2 - |n1| + |o1|
    ensures ApplyBoth(f, l1, o1, n1, l2, o2, n2) == ApplyBoth(f, m2, o2, n2, l1, o1, n1)
  {
    var a, b := l1, l1 + |o1|;
    var c := m2;
    var d := c + |o2|;
    if d <= |f| {
      SpliceLaterFirst(f, a, b, c, d, n1, n2);
      SpliceEarlierFirst(f, a, b, c, d, n1, n2);
    }
  }

  /** Whenever commuteHunkLines lets two hunks commute, applying them in the
    * original order and applying the commuted pair have the same outcome on
    * every file: the same result, or both fail. */
  lemma HunksCommuteOnFiles(f: seq<string>, l1: nat, o1: seq<string>, n1: seq<string>, l2: nat, o2: seq<string>, n2: seq<string>)
    requires CommuteHunkLines(l1, |o1|, |n1|, l2, |o2|, |n2|).Some?
    ensures
      var (m2, m1) := CommuteHunkLines(l1, |o1|, |n1|, l2, |o2|, |n2|).value;
      ApplyBoth(f, l1, o1, n1, l2, o2, n2) == ApplyBoth(f, m2, o2, n2, m1, o1, n1)
  {
    var (m2, m1) := CommuteHunkLines(l1, |o1|, |n1|, l2, |o2|, |n2|).value;
    if m1 == l1 && m2 + |n1| == l2 + |o1| && l1 + |o1| <= m2 {
      LaterHunkFirst(f, l1, o1, n1, l2, o2, n2, m2);
    } else {
      assert m2 == l2;
      LaterHunkFirst(f, l2, o2, n2, m1, o1, n1, l1);
    }
  }

  // ---------------------------------------------------------------------
  // commuteFP and the commuters built on it

  /** Same kind, and for a hunk the same numbers of old and new lines, for a
    * token replacement the very same patch: what commuting may not change. */
  predicate SameShape(p: Patch, q: Patch)
  {
    TypeOf(p) == TypeOf(q) &&
    (p.FileHunk? ==> |p.oldLines| == |q.oldLines| && |p.newLines| == |q.newLines|) &&
    (p.TokReplace? ==> p == q)
  }

  predicate SameShapeFP(x: CoreFP, y: CoreFP)
  {
    x.anchor == y.anchor && SameShape(x.patch, y.patch)
  }

  /** speedyCommute: patches on different anchor paths swap unchanged;
    * otherwise this rule does not decide. */
  function SpeedyCommute(x: CoreFP, y: CoreFP): (r: Perhaps<(CoreFP, CoreFP)>)
    ensures r.Succeeded? <==> x.anchor != y.anchor
    ensures r.Succeeded? ==> r.value == (y, x)
    ensures !r.Failed?
  {
    if x.anchor != y.anchor then Succeeded((y, x)) else Unknown
  }

  /** commuteFP: `p1` followed by `p2`, both on the anchor path `f`. */
  function CommuteFP(tr: TokRewriter, f: AnchorPath, p1: Patch, p2: Patch): (r: Perhaps<(CoreFP, CoreFP)>)
    ensures r.Succeeded? ==> r.value.0.anchor == f && r.value.1.anchor == f
    ensures r.Succeeded? ==> SameShape(r.value.0.patch, p2) && SameShape(r.value.1.patch, p1)
    ensures (IsEmptyHunk(p1) || IsEmptyHunk(p2)) ==> r == Succeeded((CoreFP(f, p2), CoreFP(f, p1)))
    ensures r.Unknown? <==>
      !IsEmptyHunk(p1) && !IsEmptyHunk(p2) &&
      !(p1.FileHunk? && p2.FileHunk?) && !(p1.FileHunk? && p2.TokReplace?) && !(p1.TokReplace? && p2.TokReplace?)
    // Two hunks: commuted exactly when commuteHunkLines moves them, each
    // keeping its own line lists and taking the line number it computes.
    ensures p1.FileHunk? && p2.FileHunk? && !IsEmptyHunk(p1) && !IsEmptyHunk(p2) ==>
      var m := CommuteHunkLines(p1.line, |p1.oldLines|, |p1.newLines|, p2.line, |p2.oldLines|, |p2.newLines|);
      (r.Succeeded? <==> m.Some?) &&
      (m.Some? ==> r.value == (CoreFP(f, FileHunk(m.value.0, p2.oldLines, p2.newLines)), CoreFP(f, FileHunk(m.value.1, p1.oldLines, p1.newLines))))
    // A hunk then a token replacement: commuted exactly when the replacement
    // can rewrite every old and every new line of the hunk; the replacement
    // moves in front unchanged and the hunk carries the rewritten lines.
    ensures p1.FileHunk? && !IsEmptyHunk(p1) && p2.TokReplace? ==>
      var old1 := TokReplaceAll(tr, p2.t, p2.o, p2.n, p1.oldLines);
      var new1 := TokReplaceAll(tr, p2.t, p2.o, p2.n, p1.newLines);
      (r.Succeeded? <==> old1.Some? && new1.Some?) &&
      (r.Succeeded? ==> r.value == (CoreFP(f, p2), CoreFP(f, FileHunk(p1.line, old1.value, new1.value))))
    // Two token replacements: they fail exactly when their token classes
    // differ or they share a token, and otherwise swap unchanged.
    ensures p1.TokReplace? && p2.TokReplace? ==>
      (r.Failed? <==> p1.t != p2.t || p1.o == p2.o || p1.n == p2.o || p1.o == p2.n || p1.n == p2.n) &&
      (r.Succeeded? ==> r.value == (CoreFP(f, p2), CoreFP(f, p1)))
  {
    if IsEmptyHunk(p2) then Succeeded((CoreFP(f, p2), CoreFP(f, p1)))
    else if IsEmptyHunk(p1) then Succeeded((CoreFP(f, p2), CoreFP(f, p1)))
    else if p1.FileHunk? && p2.FileHunk? then
      match CommuteHunkLines(p1.line, |p1.oldLines|, |p1.newLines|, p2.line, |p2.oldLines|, |p2.newLines|)
      case None => Failed
      case Some((line2, line1)) =>
        Succeeded((CoreFP(f, FileHunk(line2, p2.oldLines, p2.newLines)), CoreFP(f, FileHunk(line1, p1.oldLines, p1.newLines))))
    else if p1.FileHunk? && p2.TokReplace? then
      match TokReplaceAll(tr, p2.t, p2.o, p2.n, p1.oldLines)
      case None => Failed
      case Some(old1) =>
        match TokReplaceAll(tr, p2.t, p2.o, p2.n, p1.newLines)
        case None => Failed
        case Some(new1) => Succeeded((CoreFP(f, p2), CoreFP(f, FileHunk(p1.line, old1, new1))))
    else if p1.TokReplace? && p2.TokReplace? then
      if p1.t != p2.t || p1.o == p2.o || p1.n == p2.o || p1.o == p2.n || p1.n == p2.n then Failed
      else Succeeded((CoreFP(f, p2), CoreFP(f, p1)))
    else Unknown
  }

  /** commuteFileDir: patches on different anchor paths swap unchanged,
    * patches on the same path go through commuteFP. */
  function CommuteFileDir(tr: TokRewriter, x: CoreFP, y: CoreFP): (r: Perhaps<(CoreFP, CoreFP)>)
    ensures x.anchor != y.anchor ==> r == Succeeded((y, x))
    ensures r.Succeeded? ==> SameShapeFP(r.value.0, y) && SameShapeFP(r.value.1, x)
  {
    if x.anchor != y.anchor then Succeeded((y, x))
    else CommuteFP(tr, x.anchor, x.patch, y.patch)
  }

  /** cleverCommute: a decided answer stands; an undecided pair is retried as
    * the inverted pair in the opposite order, and a success there is
    * inverted back. */
  function CleverCommute(tr: TokRewriter, x: CoreFP, y: CoreFP): (r: Perhaps<(CoreFP, CoreFP)>)
    ensures CommuteFileDir(tr, x, y).Failed? ==> r.Failed?
    ensures CommuteFileDir(tr, x, y).Succeeded? ==> r == CommuteFileDir(tr, x, y)
    ensures CommuteFileDir(tr, x, y).Unknown? ==>
      match CommuteFileDir(tr, InvertFP(y), InvertFP(x))
      case Succeeded((x2, y2)) => r == Succeeded((InvertFP(y2), InvertFP(x2)))
      case Failed => r.Failed?
      case Unknown => r.Unknown?
    ensures r.Succeeded? ==> SameShapeFP(r.value.0, y) && SameShapeFP(r.value.1, x)
  {
    var first := CommuteFileDir(tr, x, y);
    if first.Succeeded? then first
    else if first.Failed? then Failed
    else
      var second := CommuteFileDir(tr, InvertFP(y), InvertFP(x));
      if second.Succeeded? then
        InvertShape(second.value.0.patch, x.patch);
        InvertShape(second.value.1.patch, y.patch);
        Succeeded((InvertFP(second.value.1), InvertFP(second.value.0)))
      else if second.Failed? then Failed
      else Unknown
  }

  /** Shapes survive inversion. */
  lemma InvertShape(p: Patch, q: Patch)
    requires SameShape(p, Invert(q))
    ensures SameShape(Invert(p), q)
  {
  }

  /** everythingElseCommute: no patch kind here has a special rule, so it is
    * cleverCommute. */
  function EverythingElseCommute(tr: TokRewriter, x: CoreFP, y: CoreFP): (r: Perhaps<(CoreFP, CoreFP)>)
    ensures x.anchor != y.anchor ==> r == Succeeded((y, x))
    ensures r.Succeeded? ==> SameShapeFP(r.value.0, y) && SameShapeFP(r.value.1, x)
  {
    CleverCommute(tr, x, y)
  }

  /** commute2: two primitive patches commute when either rule succeeds. */
  function Commute2(tr: TokRewriter, x: CoreFP, y: CoreFP): (r: Option<(CoreFP, CoreFP)>)
    ensures r.Some? <==> SpeedyCommute(x, y).Succeeded? || CleverCommute(tr, x, y).Succeeded?
    ensures r.Some? ==> SameShapeFP(r.value.0, y) && SameShapeFP(r.value.1, x)
    ensures x.anchor != y.anchor ==> r == Some((y, x))
  {
    var m := SpeedyCommute(x, y);
    if m.Succeeded? then Some(m.value)
    else
      var m2 := EverythingElseCommute(tr, x, y);
      if m2.Succeeded? then Some(m2.value) else None
  }

  // ---------------------------------------------------------------------
  // The commute laws stated at the head of darcs_commute.h

  /** commuteFP on the inverted pair in the opposite order: undecided, or
    * the inverses of the first result. */
  lemma CommuteFPInverted(tr: TokRewriter, f: AnchorPath, p: Patch, q: Patch)
    requires CommuteFP(tr, f, p, q).Succeeded?
    ensures
      var (y2, x2) := CommuteFP(tr, f, p, q).value;
      var r := CommuteFP(tr, f, Invert(q), Invert(p));
      r.Unknown? || r == Succeeded((InvertFP(x2), InvertFP(y2)))
  {
    if !IsEmptyHunk(p) && !IsEmptyHunk(q) && p.FileHunk? && q.FileHunk? {
      CommuteHunkLinesInverted(p.line, |p.oldLines|, |p.newLines|, q.line, |q.oldLines|, |q.newLines|);
    }
  }

  /** commuteFP of its own result: the original pair back, or, when that
    * pair of kinds is undecided, the inverted original pair from the
    * inverted result. */
  lemma CommuteFPSymmetric(tr: TokRewriter, f: AnchorPath, p: Patch, q: Patch)
    requires TokInverse(tr)
    requires CommuteFP(tr, f, p, q).Succeeded?
    ensures
      var (y2, x2) := CommuteFP(tr, f, p, q).value;
      var back := CommuteFP(tr, f, y2.patch, x2.patch);
      back == Succeeded((CoreFP(f, p), CoreFP(f, q))) ||
      (back.Unknown? && CommuteFP(tr, f, Invert(x2.patch), Invert(y2.patch)) == Succeeded((CoreFP(f, Invert(q)), CoreFP(f, Invert(p)))))
  {
    if IsEmptyHunk(p) || IsEmptyHunk(q) {
    } else if p.FileHunk? && q.FileHunk? {
      CommuteHunkLinesSymmetric(p.line, |p.oldLines|, |p.newLines|, q.line, |q.oldLines|, |q.newLines|);
    } else if p.FileHunk? && q.TokReplace? {
      TokReplaceAllInverse(tr, q.t, q.o, q.n, p.oldLines);
      TokReplaceAllInverse(tr, q.t, q.o, q.n, p.newLines);
    }
  }

  /** The invert law: if p then q commute to q' then p', the inverse of q
    * then the inverse of p commute to the inverse of p' then the inverse of
    * q'. */
  lemma Commute2InvertLaw(tr: TokRewriter, x: CoreFP, y: CoreFP)
    requires Commute2(tr, x, y).Some?
    ensures
      var (y2, x2) := Commute2(tr, x, y).value;
      Commute2(tr, InvertFP(y), InvertFP(x)) == Some((InvertFP(x2), InvertFP(y2)))
  {
    InvertInvolutive(x.patch);
    InvertInvolutive(y.patch);
    if x.anchor == y.anchor {
      var f := x.anchor;
      var first := CommuteFP(tr, f, x.patch, y.patch);
      if first.Succeeded? {
        CommuteFPInverted(tr, f, x.patch, y.patch);
      } else {
        var second := CommuteFP(tr, f, Invert(y.patch), Invert(x.patch));
        assert second.Succeeded?;
        InvertInvolutive(second.value.0.patch);
        InvertInvolutive(second.value.1.patch);
      }
    }
  }

  /** The symmetry law: if p then q commute to q' then p', then q' then p'
    * commute back to p then q. It needs a tryTokReplace whose rewrites the
    * opposite replacement undoes. */
  lemma Commute2Symmetric(tr: TokRewriter, x: CoreFP, y: CoreFP)
    requires TokInverse(tr)
    requires Commute2(tr, x, y).Some?
    ensures
      var (y2, x2) := Commute2(tr, x, y).value;
      Commute2(tr, y2, x2) == Some((x, y))
  {
    InvertInvolutive(x.patch);
    InvertInvolutive(y.patch);
    if x.anchor == y.anchor {
      var f := x.anchor;
      var first := CommuteFP(tr, f, x.patch, y.patch);
      if first.Succeeded? {
        CommuteFPSymmetric(tr, f, x.patch, y.patch);
      } else {
        var second := CommuteFP(tr, f, Invert(y.patch), Invert(x.patch));
        assert second.Succeeded?;
        var (q2, p2) := second.value;
        InvertInvolutive(q2.patch);
        InvertInvolutive(p2.patch);
        CommuteFPSymmetric(tr, f, Invert(y.patch), Invert(x.patch));
        var back := CommuteFP(tr, f, q2.patch, p2.patch);
        if back.Succeeded? {
          CommuteFPInverted(tr, f, q2.patch, p2.patch);
        }
      }
    }
  }

  /** Creating or removing a file commutes with nothing on the same anchor
    * path except a hunk that changes nothing. */
  lemma FileCreationBlocks(tr: TokRewriter, x: CoreFP, y: CoreFP)
    requires x.anchor == y.anchor
    requires x.patch.AddFile? || x.patch.RemoveFile? || y.patch.AddFile? || y.patch.RemoveFile?
    ensures Commute2(tr, x, y).None? <==> !IsEmptyHunk(x.patch) && !IsEmptyHunk(y.patch)
  {
  }
}
