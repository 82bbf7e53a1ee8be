/** Commuting along sequences (darcs_commute.h): one patch past a forward
  * list (commuterIdFL), a reverse list past one patch (commuterRLId), a
  * reverse list past a forward list (right_or_left, commuteRLFL), two
  * forward lists past each other (commute1_), and named patches
  * (commute1, commuteFL).
  *
  * A forward list is a sequence in application order, first patch first; a
  * reverse list is a sequence in application order too, its newest patch
  * last. The commuters are generic in the commute they apply to each pair,
  * as the two overloads of commuterIdFL are. */
module SequenceCommute {
  import opened Wrappers
  import opened Patches
  import opened Commute
  import Sequences

  /** A commute of two adjacent patches: `c(x, y)` is y' then x' when x then
    * y commute, None otherwise. */
  type Commuter<!P> = (P, P) -> Option<(P, P)>

  // ---------------------------------------------------------------------
  // One patch past a forward list

  /** commuterIdFL: move `x` from in front of `ys` to behind it, one patch
    * at a time; None as soon as one step fails. */
  function CommuterIdFL<P>(c: Commuter<P>, x: P, ys: seq<P>): (r: Option<(seq<P>, P)>)
    ensures r.Some? ==> |r.value.0| == |ys|
    ensures ys == [] ==> r == Some(([], x))
    decreases |ys|
  {
    if ys == [] then Some((ys, x))
    else
      match c(x, ys[0])
      case None => None
      case Some((y1, x1)) =>
        match CommuterIdFL(c, x1, ys[1..])
        case None => None
        case Some((ys1, x2)) => Some(([y1] + ys1, x2))
  }

  /** The steps of moving a patch past a forward list: `xs[i]` is the moving
    * patch before it passes `ys[i]`, which becomes `ys2[i]`. */
  ghost predicate IsFLChain<P>(c: Commuter<P>, xs: seq<P>, ys: seq<P>, ys2: seq<P>)
  {
    |xs| == |ys| + 1 && |ys2| == |ys| &&
    forall i :: 0 <= i < |ys| ==> c(xs[i], ys[i]) == Some((ys2[i], xs[i + 1]))
  }

  /** Every success of commuterIdFL is a chain of successful steps. */
  lemma {:induction false} CommuterIdFLSound<P>(c: Commuter<P>, x: P, ys: seq<P>) returns (xs: seq<P>)
    requires CommuterIdFL(c, x, ys).Some?
    ensures IsFLChain(c, xs, ys, CommuterIdFL(c, x, ys).value.0)
    ensures xs[0] == x && xs[|ys|] == CommuterIdFL(c, x, ys).value.1
    decreases |ys|
  {
    if ys == [] {
      xs := [x];
    } else {
      var (y1, x1) := c(x, ys[0]).value;
      var rest := CommuterIdFLSound(c, x1, ys[1..]);
      xs := [x] + rest;
      var ys2 := CommuterIdFL(c, x, ys).value.0;
      forall i | 0 <= i < |ys|
        ensures c(xs[i], ys[i]) == Some((ys2[i], xs[i + 1]))
      {
        if i > 0 {
          assert ys[i] == ys[1..][i - 1];
        }
      }
    }
  }

  /** Every chain of successful steps is what commuterIdFL computes. */
  lemma {:induction false} CommuterIdFLComplete<P>(c: Commuter<P>, xs: seq<P>, ys: seq<P>, ys2: seq<P>)
    requires IsFLChain(c, xs, ys, ys2)
    ensures CommuterIdFL(c, xs[0], ys) == Some((ys2, xs[|ys|]))
    decreases |ys|
  {
    if ys != [] {
      assert IsFLChain(c, xs[1..], ys[1..], ys2[1..]) by {
        forall i | 0 <= i < |ys| - 1
          ensures c(xs[1..][i], ys[1..][i]) == Some((ys2[1..][i], xs[1..][i + 1]))
        {
          assert c(xs[i + 1], ys[i + 1]) == Some((ys2[i + 1], xs[i + 2]));
        }
      }
      CommuterIdFLComplete(c, xs[1..], ys[1..], ys2[1..]);
      assert ys2 == [ys2[0]] + ys2[1..];
    }
  }

  /** A patch that swaps unchanged with every patch of a list passes the
    * whole list unchanged. */
  lemma {:induction false} CommuterIdFLIndependent<P>(c: Commuter<P>, x: P, ys: seq<P>)
    requires forall i :: 0 <= i < |ys| ==> c(x, ys[i]) == Some((ys[i], x))
    ensures CommuterIdFL(c, x, ys) == Some((ys, x))
    decreases |ys|
  {
    if ys != [] {
      assert c(x, ys[0]) == Some((ys[0], x));
      assert forall i :: 0 <= i < |ys[1..]| ==> c(x, ys[1..][i]) == Some((ys[1..][i], x)) by {
        forall i | 0 <= i < |ys[1..]|
          ensures c(x, ys[1..][i]) == Some((ys[1..][i], x))
        {
          assert ys[1..][i] == ys[i + 1];
        }
      }
      CommuterIdFLIndependent(c, x, ys[1..]);
      assert ys == [ys[0]] + ys[1..];
    }
  }

  // ---------------------------------------------------------------------
  // A reverse list past one patch

  /** commuterRLId: move `y` from behind `xs` to in front of it, passing the
    * newest patch first; None as soon as one step fails. */
  function CommuterRLId<P>(c: Commuter<P>, xs: seq<P>, y: P): (r: Option<(P, seq<P>)>)
    ensures r.Some? ==> |r.value.1| == |xs|
    ensures xs == [] ==> r == Some((y, []))
    decreases |xs|
  {
    if xs == [] then Some((y, xs))
    else
      match c(xs[|xs| - 1], y)
      case None => None
      case Some((y1, x1)) =>
        match CommuterRLId(c, xs[..|xs| - 1], y1)
        case None => None
        case Some((y2, xs1)) => Some((y2, xs1 + [x1]))
  }

  /** The steps of moving a patch back past a reverse list: `ys[i + 1]` is
    * the moving patch before it passes `xs[i]`, which becomes `xs2[i]`. */
  ghost predicate IsRLChain<P>(c: Commuter<P>, xs: seq<P>, ys: seq<P>, xs2: seq<P>)
  {
    |ys| == |xs| + 1 && |xs2| == |xs| &&
    forall i :: 0 <= i < |xs| ==> c(xs[i], ys[i + 1]) == Some((ys[i], xs2[i]))
  }

  /** Every success of commuterRLId is a chain of successful steps. */
  lemma {:induction false} CommuterRLIdSound<P>(c: Commuter<P>, xs: seq<P>, y: P) returns (ys: seq<P>)
    requires CommuterRLId(c, xs, y).Some?
    ensures IsRLChain(c, xs, ys, CommuterRLId(c, xs, y).value.1)
    ensures ys[|xs|] == y && ys[0] == CommuterRLId(c, xs, y).value.0
    decreases |xs|
  {
    if xs == [] {
      ys := [y];
    } else {
      var n := |xs| - 1;
      var (y1, x1) := c(xs[n], y).value;
      var front := CommuterRLIdSound(c, xs[..n], y1);
      ys := front + [y];
      var xs2 := CommuterRLId(c, xs, y).value.1;
      forall i | 0 <= i < |xs|
        ensures c(xs[i], ys[i + 1]) == Some((ys[i], xs2[i]))
      {
        if i < n {
          assert xs[i] == xs[..n][i];
        }
      }
    }
  }

  /** Every chain of successful steps is what commuterRLId computes. */
  lemma {:induction false} CommuterRLIdComplete<P>(c: Commuter<P>, xs: seq<P>, ys: seq<P>, xs2: seq<P>)
    requires IsRLChain(c, xs, ys, xs2)
    ensures CommuterRLId(c, xs, ys[|xs|]) == Some((ys[0], xs2))
    decreases |xs|
  {
    if xs != [] {
      var n := |xs| - 1;
      assert IsRLChain(c, xs[..n], ys[..n + 1], xs2[..n]) by {
        forall i | 0 <= i < n
          ensures c(xs[..n][i], ys[..n + 1][i + 1]) == Some((ys[..n + 1][i], xs2[..n][i]))
        {
          assert c(xs[i], ys[i + 1]) == Some((ys[i], xs2[i]));
        }
      }
      CommuterRLIdComplete(c, xs[..n], ys[..n + 1], xs2[..n]);
      assert xs2 == xs2[..n] + [xs2[n]];
    }
  }

  // ---------------------------------------------------------------------
  // A reverse list past a forward list

  /** right_or_left: `isLeft` moves the newest patch of `p1` past all of
    * `p2` and continues with the rest as "right"; "right" moves the first
    * patch of `p2` back past all of `p1` and continues as "left". Each call
    * consumes one patch, so the recursion ends. */
  function RightOrLeft<P>(c: Commuter<P>, p1: seq<P>, p2: seq<P>, isLeft: bool): (r: Option<(seq<P>, seq<P>)>)
    ensures r.Some? ==> |r.value.0| == |p2| && |r.value.1| == |p1|
    decreases |p1| + |p2|
  {
    if isLeft then
      if p1 == [] then Some((p2, p1))
      else
        var a := p1[|p1| - 1];
        match CommuterIdFL(c, a, p2)
        case None => None
        case Some((bs1, a1)) =>
          match RightOrLeft(c, p1[..|p1| - 1], bs1, false)
          case None => None
          case Some((bs2, as1)) => Some((bs2, as1 + [a1]))
    else
      if p2 == [] then Some((p2, p1))
      else
        match CommuterRLId(c, p1, p2[0])
        case None => None
        case Some((b1, as1)) =>
          match RightOrLeft(c, as1, p2[1..], true)
          case None => None
          case Some((bs1, as2)) => Some(([b1] + bs1, as2))
  }

  /** The reference order: the patches of `as_` move past all of `bs`, one
    * at a time, newest first. */
  function RLPastFL<P>(c: Commuter<P>, as_: seq<P>, bs: seq<P>): (r: Option<(seq<P>, seq<P>)>)
    ensures r.Some? ==> |r.value.0| == |bs| && |r.value.1| == |as_|
    decreases |as_|
  {
    if as_ == [] then Some((bs, as_))
    else
      match CommuterIdFL(c, as_[|as_| - 1], bs)
      case None => None
      case Some((bs1, a1)) =>
        match RLPastFL(c, as_[..|as_| - 1], bs1)
        case None => None
        case Some((bs2, as1)) => Some((bs2, as1 + [a1]))
  }

  /** Nothing to pass: the reverse list stays as it is. */
  lemma {:induction false} RLPastEmptyFL<P>(c: Commuter<P>, as_: seq<P>)
    ensures RLPastFL(c, as_, []) == Some(([], as_))
    decreases |as_|
  {
    if as_ != [] {
      var n := |as_| - 1;
      assert CommuterIdFL(c, as_[n], []) == Some(([], as_[n]));
      RLPastEmptyFL(c, as_[..n]);
      assert as_ == as_[..n] + [as_[n]];
    }
  }

  /** The first column first: moving the first patch of the forward list
    * back past the whole reverse list, then the rest, is the same as going
    * row by row. */
  lemma {:induction false} RLPastFLColumn<P>(c: Commuter<P>, as_: seq<P>, b: P, bs: seq<P>)
    ensures RLPastFL(c, as_, [b] + bs) ==
      match CommuterRLId(c, as_, b)
      case None => None
      case Some((b1, as1)) =>
        match RLPastFL(c, as1, bs)
        case None => None
        case Some((bs2, as2)) => Some(([b1] + bs2, as2))
    decreases |as_|
  {
    if as_ == [] {
      assert RLPastFL(c, [], [b] + bs) == Some(([b] + bs, []));
    } else {
      var n := |as_| - 1;
      var a := as_[n];
      assert ([b] + bs)[1..] == bs;
      match c(a, b) {
        case None =>
        case Some((b2, a2)) =>
          match CommuterIdFL(c, a2, bs) {
            case None =>
              match CommuterRLId(c, as_[..n], b2) {
                case None =>
                case Some((b1, as1)) =>
                  assert CommuterRLId(c, as_, b) == Some((b1, as1 + [a2]));
                  assert (as1 + [a2])[..|as1|] == as1;
              }
            case Some((bs3, a1)) =>
              assert CommuterIdFL(c, a, [b] + bs) == Some(([b2] + bs3, a1));
              RLPastFLColumn(c, as_[..n], b2, bs3);
              match CommuterRLId(c, as_[..n], b2) {
                case None =>
                case Some((b1, as1)) =>
                  assert CommuterRLId(c, as_, b) == Some((b1, as1 + [a2]));
                  assert (as1 + [a2])[..|as1|] == as1;
              }
          }
      }
    }
  }

  /** However right_or_left alternates between columns and rows, it computes
    * the reference order. */
  lemma {:induction false} RightOrLeftByRows<P>(c: Commuter<P>, p1: seq<P>, p2: seq<P>, isLeft: bool)
    ensures RightOrLeft(c, p1, p2, isLeft) == RLPastFL(c, p1, p2)
    decreases |p1| + |p2|
  {
    if isLeft {
      if p1 != [] {
        var a := p1[|p1| - 1];
        match CommuterIdFL(c, a, p2)
        case None =>
        case Some((bs1, a1)) =>
          RightOrLeftByRows(c, p1[..|p1| - 1], bs1, false);
      }
    } else if p2 == [] {
      RLPastEmptyFL(c, p1);
    } else {
      RLPastFLColumn(c, p1, p2[0], p2[1..]);
      assert [p2[0]] + p2[1..] == p2;
      match CommuterRLId(c, p1, p2[0])
      case None =>
      case Some((b1, as1)) =>
        RightOrLeftByRows(c, as1, p2[1..], true);
    }
  }

  /** Patches that all swap unchanged with each other pass each other
    * unchanged. */
  lemma {:induction false} RLPastFLIndependent<P>(c: Commuter<P>, as_: seq<P>, bs: seq<P>)
    requires forall i, j :: 0 <= i < |as_| && 0 <= j < |bs| ==> c(as_[i], bs[j]) == Some((bs[j], as_[i]))
    ensures RLPastFL(c, as_, bs) == Some((bs, as_))
    decreases |as_|
  {
    if as_ != [] {
      var n := |as_| - 1;
      CommuterIdFLIndependent(c, as_[n], bs);
      assert forall i, j :: 0 <= i < |as_[..n]| && 0 <= j < |bs| ==> c(as_[..n][i], bs[j]) == Some((bs[j], as_[..n][i])) by {
        forall i, j | 0 <= i < |as_[..n]| && 0 <= j < |bs|
          ensures c(as_[..n][i], bs[j]) == Some((bs[j], as_[..n][i]))
        {
          assert as_[..n][i] == as_[i];
        }
      }
      RLPastFLIndependent(c, as_[..n], bs);
      assert as_ == as_[..n] + [as_[n]];
    }
  }

  // ---------------------------------------------------------------------
  // right_or_left as the code behaves

  /** A patch that swaps unchanged with every patch of a reverse list moves
    * back past the whole list unchanged. */
  lemma {:induction false} CommuterRLIdIndependent<P>(c: Commuter<P>, xs: seq<P>, y: P)
    requires forall i :: 0 <= i < |xs| ==> c(xs[i], y) == Some((y, xs[i]))
    ensures CommuterRLId(c, xs, y) == Some((y, xs))
    decreases |xs|
  {
    if xs != [] {
      var n := |xs| - 1;
      assert c(xs[n], y) == Some((y, xs[n]));
      assert forall i :: 0 <= i < n ==> c(xs[..n][i], y) == Some((y, xs[..n][i])) by {
        forall i | 0 <= i < n
          ensures c(xs[..n][i], y) == Some((y, xs[..n][i]))
        {
          assert xs[..n][i] == xs[i];
        }
      }
      CommuterRLIdIndependent(c, xs[..n], y);
      assert xs == xs[..n] + [xs[n]];
    }
  }

  /** When right_or_left as written returns one patch too many: "right" with
    * at least two patches more to move than to pass, or "left" with at least
    * one more. */
  predicate Duplicates(n1: nat, n2: nat, isLeft: bool)
  {
    if isLeft then n1 > 0 && n2 >= n1 + 1 else n2 >= n1 + 2
  }

  /** right_or_left as the code behaves on lists that reach the end of
    * their base, as every list commuterIdFL builds does. "right" extracts
    * the first patch of `p2`; the rest is a window onto the same base that
    * still ends at its end. When there is nothing to pass, "left" hands that
    * rest back as it is, and `push` of the moved patch then shares the base
    * and re-slices it from 0: the extracted patch is back behind the pushed
    * one (the mechanism of Sequences.PushAfterExtractRestoresHead). */
  function RightOrLeftAsWritten<P>(c: Commuter<P>, p1: seq<P>, p2: seq<P>, isLeft: bool): (r: Option<(seq<P>, seq<P>)>)
    ensures r.Some? ==> |r.value.1| == |p1|
    ensures r.Some? ==> |r.value.0| == |p2| + (if Duplicates(|p1|, |p2|, isLeft) then 1 else 0)
    decreases |p1| + |p2|
  {
    if isLeft then
      if p1 == [] then Some((p2, p1))
      else
        var a := p1[|p1| - 1];
        match CommuterIdFL(c, a, p2)
        case None => None
        case Some((bs1, a1)) =>
          match RightOrLeftAsWritten(c, p1[..|p1| - 1], bs1, false)
          case None => None
          case Some((bs2, as1)) => Some((bs2, as1 + [a1]))
    else
      if p2 == [] then Some((p2, p1))
      else
        match CommuterRLId(c, p1, p2[0])
        case None => None
        case Some((b1, as1)) =>
          match RightOrLeftAsWritten(c, as1, p2[1..], true)
          case None => None
          case Some((bs1, as2)) =>
            if p1 == [] && |p2| >= 2 then Some(([b1, p2[0]] + bs1, as2))
            else Some(([b1] + bs1, as2))
  }

  /** The smallest case, on the lists of Sequences: "right" extracts y0 from
    * the forward list [y0, y1], moving it past the empty reverse list
    * leaves it as it is, "left" hands the rest [y1] back, and pushing y0
    * onto that rest gives [y0, y0, y1], where [y0, y1] was meant. */
  method RightPastNothing<P>(c: Commuter<P>, y0: P, y1: P) returns (r: Sequences.List<P>)
    ensures Sequences.Valid(r) && Sequences.Elems(r) == [y0, y0, y1]
    ensures RightOrLeftAsWritten(c, [], [y0, y1], false) == Some((Sequences.Elems(r), []))
    ensures RightOrLeft(c, [], [y0, y1], false) == Some(([y0, y1], []))
  {
    var p2 := Sequences.FromItems(true, [y1, y0]);
    assert Sequences.Reverse([y1, y0]) == [y0, y1] by {
      assert [y1, y0][..1] == [y1];
      assert Sequences.Reverse([y1]) == [y1];
    }
    var e := Sequences.ExtractFL(p2);
    var b, bs := e.value.0, e.value.1;
    assert CommuterRLId(c, [], b) == Some((b, []));
    assert Sequences.Elems(bs) == [y1];
    var pushed := Sequences.Push(bs, b);
    r := pushed.value;
    assert [y0, y1][1..] == [y1];
    assert RightOrLeftAsWritten(c, [], [y1], true) == Some(([y1], []));
    assert [y0, y0] + [y1] == [y0, y0, y1];
  }

  /** Where it does not duplicate, right_or_left as written computes what
    * right_or_left as intended does. */
  lemma {:induction false} RightOrLeftAsWrittenAgrees<P>(c: Commuter<P>, p1: seq<P>, p2: seq<P>, isLeft: bool)
    requires !Duplicates(|p1|, |p2|, isLeft)
    ensures RightOrLeftAsWritten(c, p1, p2, isLeft) == RightOrLeft(c, p1, p2, isLeft)
    decreases |p1| + |p2|
  {
    if isLeft {
      if p1 != [] {
        match CommuterIdFL(c, p1[|p1| - 1], p2)
        case None =>
        case Some((bs1, a1)) =>
          RightOrLeftAsWrittenAgrees(c, p1[..|p1| - 1], bs1, false);
      }
    } else if p2 != [] {
      match CommuterRLId(c, p1, p2[0])
      case None =>
      case Some((b1, as1)) =>
        RightOrLeftAsWrittenAgrees(c, as1, p2[1..], true);
    }
  }

  /** Every patch of `p1` swaps unchanged with every patch of `p2`. */
  ghost predicate Independent<P>(c: Commuter<P>, p1: seq<P>, p2: seq<P>)
  {
    forall i, j :: 0 <= i < |p1| && 0 <= j < |p2| ==> c(p1[i], p2[j]) == Some((p2[j], p1[i]))
  }

  /** Independence passes to the parts right_or_left splits off. */
  lemma IndependentParts<P>(c: Commuter<P>, p1: seq<P>, p2: seq<P>)
    requires Independent(c, p1, p2)
    ensures p1 != [] ==> Independent(c, p1[..|p1| - 1], p2)
    ensures p1 != [] ==> forall j :: 0 <= j < |p2| ==> c(p1[|p1| - 1], p2[j]) == Some((p2[j], p1[|p1| - 1]))
    ensures p2 != [] ==> Independent(c, p1, p2[1..])
    ensures p2 != [] ==> forall i :: 0 <= i < |p1| ==> c(p1[i], p2[0]) == Some((p2[0], p1[i]))
  {
  }

  /** Patches that all swap unchanged with each other: right_or_left as
    * written gives the left list back and the right list with its patch
    * `k` repeated, `k` being the number of patches "right" passes before
    * it meets nothing left to pass. */
  lemma {:induction false} RightOrLeftAsWrittenIndependent<P>(c: Commuter<P>, p1: seq<P>, p2: seq<P>, isLeft: bool)
    requires Independent(c, p1, p2)
    ensures var k := if isLeft then |p1| - 1 else |p1|;
      RightOrLeftAsWritten(c, p1, p2, isLeft) ==
        if Duplicates(|p1|, |p2|, isLeft) then Some((p2[..k + 1] + p2[k..], p1)) else Some((p2, p1))
    decreases |p1| + |p2|, 1
  {
    if isLeft {
      if p1 != [] {
        LeftIndependent(c, p1, p2);
      }
    } else if p2 != [] {
      RightIndependent(c, p1, p2);
    }
  }

  /** The "left" step of RightOrLeftAsWrittenIndependent. */
  lemma {:induction false} LeftIndependent<P>(c: Commuter<P>, p1: seq<P>, p2: seq<P>)
    requires p1 != [] && Independent(c, p1, p2)
    ensures var k := |p1| - 1;
      RightOrLeftAsWritten(c, p1, p2, true) ==
        if Duplicates(|p1|, |p2|, true) then Some((p2[..k + 1] + p2[k..], p1)) else Some((p2, p1))
    decreases |p1| + |p2|, 0
  {
    var n := |p1| - 1;
    IndependentParts(c, p1, p2);
    CommuterIdFLIndependent(c, p1[n], p2);
    RightOrLeftAsWrittenIndependent(c, p1[..n], p2, false);
    assert p1[..n] + [p1[n]] == p1;
  }

  /** The "right" step of RightOrLeftAsWrittenIndependent. */
  lemma {:induction false} RightIndependent<P>(c: Commuter<P>, p1: seq<P>, p2: seq<P>)
    requires p2 != [] && Independent(c, p1, p2)
    ensures var k := |p1|;
      RightOrLeftAsWritten(c, p1, p2, false) ==
        if Duplicates(|p1|, |p2|, false) then Some((p2[..k + 1] + p2[k..], p1)) else Some((p2, p1))
    decreases |p1| + |p2|, 0
  {
    var b := p2[0];
    var rest := p2[1..];
    IndependentParts(c, p1, p2);
    CommuterRLIdIndependent(c, p1, b);
    RightOrLeftAsWrittenIndependent(c, p1, rest, true);
    var k := |p1|;
    var bs1 := if Duplicates(|p1|, |rest|, true) then rest[..k] + rest[k - 1..] else rest;
    assert RightOrLeftAsWritten(c, p1, rest, true) == Some((bs1, p1));
    if p1 == [] && |p2| >= 2 {
      assert [b, b] + rest == p2[..1] + p2[0..];
    } else if Duplicates(|p1|, |p2|, false) {
      RepeatOneFurther(p2, k);
    } else {
      assert [b] + rest == p2;
    }
  }

  /** Repeating patch `k - 1` of the rest is repeating patch `k` of the
    * whole. */
  lemma RepeatOneFurther<P>(p2: seq<P>, k: nat)
    requires 0 < k && k + 2 <= |p2|
    ensures [p2[0]] + (p2[1..][..k] + p2[1..][k - 1..]) == p2[..k + 1] + p2[k..]
  {
    assert p2[1..][..k] == p2[1..k + 1];
    assert p2[1..][k - 1..] == p2[k..];
    assert [p2[0]] + p2[1..k + 1] == p2[..k + 1];
  }

  // ---------------------------------------------------------------------
  // Primitive patches

  /** commute2 as a commuter. */
  function PrimCommuter(tr: TokRewriter): Commuter<CoreFP>
  {
    (x: CoreFP, y: CoreFP) => Commute2(tr, x, y)
  }

  /** commuterRLFL / commuteRLFL: right_or_left, starting with "right". */
  function CommuteRLFL(tr: TokRewriter, p1: seq<CoreFP>, p2: seq<CoreFP>): (r: Option<(seq<CoreFP>, seq<CoreFP>)>)
    ensures r == RLPastFL(PrimCommuter(tr), p1, p2)
  {
    RightOrLeftByRows(PrimCommuter(tr), p1, p2, false);
    RightOrLeft(PrimCommuter(tr), p1, p2, false)
  }

  /** commuterRLFL / commuteRLFL as the code behaves: right_or_left as
    * written, starting with "right". */
  function CommuteRLFLAsWritten(tr: TokRewriter, p1: seq<CoreFP>, p2: seq<CoreFP>): (r: Option<(seq<CoreFP>, seq<CoreFP>)>)
    ensures r.Some? ==> |r.value.1| == |p1|
    ensures r.Some? ==> |r.value.0| == |p2| + (if |p2| >= |p1| + 2 then 1 else 0)
    ensures |p2| < |p1| + 2 ==> r == CommuteRLFL(tr, p1, p2)
  {
    if |p2| < |p1| + 2 then
      RightOrLeftAsWrittenAgrees(PrimCommuter(tr), p1, p2, false);
      RightOrLeftByRows(PrimCommuter(tr), p1, p2, false);
      RightOrLeftAsWritten(PrimCommuter(tr), p1, p2, false)
    else RightOrLeftAsWritten(PrimCommuter(tr), p1, p2, false)
  }

  /** commute1_ as written: the lists are commuted by right_or_left as
    * written, and the commuted left list is turned back into a forward
    * list with ToFL, which reverses it. The right list comes back one patch
    * longer when it has at least two more patches than the left one. */
  function CommuteFLPairAsWritten(tr: TokRewriter, xs: seq<CoreFP>, ys: seq<CoreFP>): (r: Option<(seq<CoreFP>, seq<CoreFP>)>)
    ensures r.Some? ==> |r.value.1| == |xs|
    ensures r.Some? ==> |r.value.0| == |ys| + (if xs != [] && |ys| >= |xs| + 2 then 1 else 0)
  {
    if xs == [] || ys == [] then Some((ys, xs))
    else
      match CommuteRLFLAsWritten(tr, xs, ys)
      case None => None
      case Some((ys1, rsx)) => Some((ys1, Sequences.Reverse(rsx)))
  }

  /** commute1_ as intended: the commuted left list keeps its order. */
  function CommuteFLPair(tr: TokRewriter, xs: seq<CoreFP>, ys: seq<CoreFP>): (r: Option<(seq<CoreFP>, seq<CoreFP>)>)
    ensures r == RLPastFL(PrimCommuter(tr), xs, ys)
  {
    if xs == [] then
      Some((ys, xs))
    else if ys == [] then
      RLPastEmptyFL(PrimCommuter(tr), xs);
      Some((ys, xs))
    else CommuteRLFL(tr, xs, ys)
  }

  /** As long as the right list has fewer than two patches more than the
    * left one, commute1_ as written differs from the intended commute only
    * in reversing the commuted left list. */
  lemma CommuteFLPairAsWrittenReverses(tr: TokRewriter, xs: seq<CoreFP>, ys: seq<CoreFP>)
    requires 0 < |ys| < |xs| + 2
    ensures CommuteFLPairAsWritten(tr, xs, ys) ==
      match CommuteFLPair(tr, xs, ys)
      case None => None
      case Some((ys1, xs1)) => Some((ys1, Sequences.Reverse(xs1)))
  {
    if xs == [] {
      assert Sequences.Reverse(xs) == [];
    }
  }

  /** Two forward lists whose patches lie on different anchor paths pass
    * each other unchanged. The code as written hands the left list back
    * reversed, and repeats one patch of the right list when it has at least
    * two patches more than the left one. */
  lemma DifferentPathsPassUnchanged(tr: TokRewriter, xs: seq<CoreFP>, ys: seq<CoreFP>)
    requires forall i, j :: 0 <= i < |xs| && 0 <= j < |ys| ==> xs[i].anchor != ys[j].anchor
    ensures CommuteFLPair(tr, xs, ys) == Some((ys, xs))
    ensures 0 < |ys| < |xs| + 2 ==> CommuteFLPairAsWritten(tr, xs, ys) == Some((ys, Sequences.Reverse(xs)))
    ensures xs != [] && |ys| >= |xs| + 2 ==>
      CommuteFLPairAsWritten(tr, xs, ys) == Some((ys[..|xs| + 1] + ys[|xs|..], Sequences.Reverse(xs)))
  {
    var c := PrimCommuter(tr);
    forall i, j | 0 <= i < |xs| && 0 <= j < |ys|
      ensures c(xs[i], ys[j]) == Some((ys[j], xs[i]))
    {
      assert c(xs[i], ys[j]) == Commute2(tr, xs[i], ys[j]);
    }
    RLPastFLIndependent(c, xs, ys);
    assert Independent(c, xs, ys);
    RightOrLeftAsWrittenIndependent(c, xs, ys, false);
    if 0 < |ys| < |xs| + 2 {
      CommuteFLPairAsWrittenReverses(tr, xs, ys);
    }
  }

  /** One patch passing three on another path: as written the middle one
    * comes back twice. */
  lemma ThreePatchesPassOne(tr: TokRewriter)
    ensures
      var x := CoreFP(AnchorPath({"a"}), AddFile);
      var y0, y1, y2 := CoreFP(DefaultAnchor, AddFile), CoreFP(DefaultAnchor, RemoveFile), CoreFP(DefaultAnchor, FileHunk(1, [], ["b"]));
      CommuteFLPairAsWritten(tr, [x], [y0, y1, y2]) == Some(([y0, y1, y1, y2], [x])) &&
      CommuteFLPair(tr, [x], [y0, y1, y2]) == Some(([y0, y1, y2], [x]))
  {
    var x := CoreFP(AnchorPath({"a"}), AddFile);
    var y0, y1, y2 := CoreFP(DefaultAnchor, AddFile), CoreFP(DefaultAnchor, RemoveFile), CoreFP(DefaultAnchor, FileHunk(1, [], ["b"]));
    assert "a" in AnchorPath({"a"}).names;
    DifferentPathsPassUnchanged(tr, [x], [y0, y1, y2]);
    assert [y0, y1, y2][..2] + [y0, y1, y2][1..] == [y0, y1, y1, y2];
    assert Sequences.Reverse([x]) == [x] by {
      Sequences.ReverseAt([x], 0);
    }
  }

  /** Two creations on one path, passed by a creation on another: the code
    * as written swaps the two. */
  lemma CommuteFLPairReversesPayload(tr: TokRewriter)
    ensures
      var x1, x2 := CoreFP(AnchorPath({"a"}), AddFile), CoreFP(AnchorPath({"a"}), RemoveFile);
      var y := CoreFP(DefaultAnchor, AddFile);
      CommuteFLPairAsWritten(tr, [x1, x2], [y]) == Some(([y], [x2, x1])) &&
      CommuteFLPair(tr, [x1, x2], [y]) == Some(([y], [x1, x2]))
  {
    var x1, x2 := CoreFP(AnchorPath({"a"}), AddFile), CoreFP(AnchorPath({"a"}), RemoveFile);
    var y := CoreFP(DefaultAnchor, AddFile);
    assert "a" in AnchorPath({"a"}).names;
    DifferentPathsPassUnchanged(tr, [x1, x2], [y]);
    assert Sequences.Reverse([x1, x2]) == [x2, x1] by {
      Sequences.ReverseAt([x1, x2], 0);
      Sequences.ReverseAt([x1, x2], 1);
    }
  }

  /** On one-patch lists, as every named patch built by makeNamedWithType
    * holds, the code as written and the intended commute agree, and both
    * are commute2. */
  lemma SingletonPayloads(tr: TokRewriter, x: CoreFP, y: CoreFP)
    ensures CommuteFLPairAsWritten(tr, [x], [y]) == CommuteFLPair(tr, [x], [y])
    ensures CommuteFLPair(tr, [x], [y]) ==
      match Commute2(tr, x, y)
      case None => None
      case Some((y1, x1)) => Some(([y1], [x1]))
  {
    var c := PrimCommuter(tr);
    assert [x][..0] == [];
    assert [y][1..] == [];
    assert c(x, y) == Commute2(tr, x, y);
    match Commute2(tr, x, y)
    case None =>
      assert CommuterIdFL(c, x, [y]) == None;
    case Some((y1, x1)) =>
      assert [y][0] == y && [y1] + [] == [y1];
      assert CommuterIdFL(c, x1, []) == Some(([], x1));
      assert CommuterIdFL(c, x, [y]) == Some(([y1], x1));
      assert RLPastFL(c, [], [y1]) == Some(([y1], []));
      assert [x][|[x]| - 1] == x && [] + [x1] == [x1];
      assert RLPastFL(c, [x], [y]) == Some(([y1], [x1]));
      assert Sequences.Reverse([x1]) == [x1] by {
        Sequences.ReverseAt([x1], 0);
      }
  }

  // ---------------------------------------------------------------------
  // Named patches

  /** commute1: a named patch that explicitly depends on the other blocks
    * the commute; otherwise the payloads commute and each named patch keeps
    * its identity and its explicit dependencies. */
  function Commute1(tr: TokRewriter, x: Named, y: Named): (r: Option<(Named, Named)>)
    ensures (y.n in x.d || x.n in y.d) ==> r.None?
    ensures r.Some? ==> r.value.0.n == y.n && r.value.0.d == y.d && r.value.1.n == x.n && r.value.1.d == x.d
    ensures r.Some? <==> !(y.n in x.d || x.n in y.d) && RLPastFL(PrimCommuter(tr), x.p, y.p).Some?
    ensures r.Some? ==> (r.value.0.p, r.value.1.p) == RLPastFL(PrimCommuter(tr), x.p, y.p).value
  {
    if (|x.d| != 0 && y.n in x.d) || (|y.d| != 0 && x.n in y.d) then None
    else
      match CommuteFLPair(tr, x.p, y.p)
      case None => None
      case Some((yp, xp)) => Some((Named(y.n, y.d, yp), Named(x.n, x.d, xp)))
  }

  /** commute1 as a commuter. */
  function NamedCommuter(tr: TokRewriter): Commuter<Named>
  {
    (x: Named, y: Named) => Commute1(tr, x, y)
  }

  /** commuteFL / commuterIdFL over named patches: each step is commute1.
    * The moving patch and every patch it passes keep their identities and
    * explicit dependencies. */
  function CommuteFL(tr: TokRewriter, q: Named, ys: seq<Named>): (r: Option<(seq<Named>, Named)>)
    ensures r.Some? ==> |r.value.0| == |ys|
    ensures r.Some? ==> Ident(r.value.1) == Ident(q) && r.value.1.d == q.d
    ensures r.Some? ==> forall i :: 0 <= i < |ys| ==> Ident(r.value.0[i]) == Ident(ys[i]) && r.value.0[i].d == ys[i].d
  {
    CommuteFLKeepsIdentities(tr, q, ys);
    CommuterIdFL(NamedCommuter(tr), q, ys)
  }

  lemma {:induction false} CommuteFLKeepsIdentities(tr: TokRewriter, q: Named, ys: seq<Named>)
    ensures var r := CommuterIdFL(NamedCommuter(tr), q, ys);
      r.Some? ==>
        && r.value.1.n == q.n && r.value.1.d == q.d
        && forall i :: 0 <= i < |ys| ==> r.value.0[i].n == ys[i].n && r.value.0[i].d == ys[i].d
    decreases |ys|
  {
    if ys != [] {
      match Commute1(tr, q, ys[0])
      case None =>
      case Some((y1, x1)) =>
        CommuteFLKeepsIdentities(tr, x1, ys[1..]);
        match CommuterIdFL(NamedCommuter(tr), x1, ys[1..])
        case None =>
        case Some((ys1, x2)) =>
          var r := [y1] + ys1;
          forall i | 0 <= i < |ys| ensures r[i].n == ys[i].n && r[i].d == ys[i].d {
            if i > 0 {
              assert r[i] == ys1[i - 1] && ys[i] == ys[1..][i - 1];
            }
          }
    }
  }

  /** commute1 as written: on commute1_ as written. */
  function Commute1AsWritten(tr: TokRewriter, x: Named, y: Named): (r: Option<(Named, Named)>)
    ensures (y.n in x.d || x.n in y.d) ==> r.None?
    ensures r.Some? ==> r.value.0.n == y.n && r.value.0.d == y.d && r.value.1.n == x.n && r.value.1.d == x.d
    ensures r.Some? ==> |r.value.1.p| == |x.p|
    ensures r.Some? ==> |r.value.0.p| == |y.p| + (if x.p != [] && |y.p| >= |x.p| + 2 then 1 else 0)
  {
    if (|x.d| != 0 && y.n in x.d) || (|y.d| != 0 && x.n in y.d) then None
    else
      match CommuteFLPairAsWritten(tr, x.p, y.p)
      case None => None
      case Some((yp, xp)) => Some((Named(y.n, y.d, yp), Named(x.n, x.d, xp)))
  }

  /** commute1 as written, as a commuter. */
  function NamedCommuterAsWritten(tr: TokRewriter): Commuter<Named>
  {
    (x: Named, y: Named) => Commute1AsWritten(tr, x, y)
  }

  /** Named patches holding one patch each, as makeNamedWithType builds
    * them: commute1 as written and as intended agree, and the commuted
    * patches hold one patch each again. */
  lemma OnePatchNamedCommute(tr: TokRewriter, x: Named, y: Named)
    requires |x.p| == 1 && |y.p| == 1
    ensures Commute1AsWritten(tr, x, y) == Commute1(tr, x, y)
    ensures Commute1(tr, x, y).Some? ==> |Commute1(tr, x, y).value.0.p| == 1 && |Commute1(tr, x, y).value.1.p| == 1
  {
    assert x.p == [x.p[0]] && y.p == [y.p[0]];
    SingletonPayloads(tr, x.p[0], y.p[0]);
  }

  /** One-patch named patches are all the same to commuteFL: moving one
    * past a list of them gives the same with commute1 as written as with
    * commute1 as intended. */
  lemma {:induction false} CommuteFLOnePatch(tr: TokRewriter, q: Named, ys: seq<Named>)
    requires |q.p| == 1
    requires forall i :: 0 <= i < |ys| ==> |ys[i].p| == 1
    ensures CommuterIdFL(NamedCommuterAsWritten(tr), q, ys) == CommuterIdFL(NamedCommuter(tr), q, ys)
    decreases |ys|
  {
    if ys != [] {
      OnePatchNamedCommute(tr, q, ys[0]);
      assert NamedCommuterAsWritten(tr)(q, ys[0]) == NamedCommuter(tr)(q, ys[0]);
      match Commute1(tr, q, ys[0])
      case None =>
      case Some((y1, x1)) =>
        assert forall i :: 0 <= i < |ys[1..]| ==> |ys[1..][i].p| == 1 by {
          forall i | 0 <= i < |ys[1..]|
            ensures |ys[1..][i].p| == 1
          {
            assert ys[1..][i] == ys[i + 1];
          }
        }
        CommuteFLOnePatch(tr, x1, ys[1..]);
    }
  }
}
