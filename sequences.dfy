/** The persistent forward and reverse lists of darcs_types.h.
  *
  * An FL or RL value is a window (a `Slice`) onto a SHARED base list: the
  * value owns its window and shares the base (a `std::shared_ptr`) with every
  * value it was copied from or pushed onto. FL_BASE is a `std::forward_list`
  * that grows at the front; RL_BASE is a `std::list` that grows at the back.
  * Both are modelled by one class, `Base`, whose `forward` flag says which
  * end `Emplace` grows, and both list kinds by one datatype, `List`, as
  * FL_RL_COMMON is one template for both.
  *
  * The contracts below state what the code does, including where that
  * differs from what a persistent list promises: a push that shares its base
  * changes what other FL values over that base hold, a push that copies an FL
  * reverses it, and a window can be empty without being Nil. */
module Sequences {
  import opened Wrappers

  const SLICE_OUT_OF_RANGE: string := "ATTEMPTING TO SLICE OUT OF RANGE"
  const INDEX_OUT_OF_RANGE: string := "INDEX OUT OF RANGE"
  const NOTHING_VALUE: string := "attempting to obtain the value of nothing"

  /** A window [start, end) onto a base; the constructor raises `end` to
    * `start` when it is smaller. */
  datatype Slice = Slice(start: nat, end: nat)
  {
    function Size(): nat
    {
      if start <= end then end - start else 0
    }
  }

  /** Slice's constructor. */
  function MakeSlice(start: nat, end: nat): (s: Slice)
    ensures s.start == start && s.start <= s.end
    ensures s.Size() == if start <= end then end - start else 0
  {
    Slice(start, if start < end then end else start)
  }

  /** slice(start, end) of a base holding `len` items: a start at or past
    * the end gives the empty window at 0; an end past the end throws. The
    * empty window onto the empty base is always allowed. */
  function SliceIn(len: nat, start: nat, end: nat): (r: Result<Slice>)
    ensures r.Failure? <==> start < len && end > len
    ensures r.Success? ==> r.value.start <= r.value.end <= len
    ensures start >= len ==> r == Success(Slice(0, 0))
    ensures start < len && end <= len ==> r == Success(MakeSlice(start, end))
  {
    if start == 0 && end == 0 && len == 0 then Success(MakeSlice(start, end))
    else if start >= len then Success(MakeSlice(0, 0))
    else if end > len then Failure(SLICE_OUT_OF_RANGE)
    else Success(MakeSlice(start, end))
  }

  /** FL_BASE (`forward`) or RL_BASE: the items in index order. */
  class Base<T> {
    const forward: bool
    var items: seq<T>

    constructor (forward: bool)
      ensures this.forward == forward && items == []
    {
      this.forward := forward;
      items := [];
    }

    /** emplace: FL_BASE puts the item in front, shifting every index by
      * one; RL_BASE puts it at the back. */
    method Emplace(x: T)
      modifies this
      ensures items == if forward then [x] + old(items) else old(items) + [x]
    {
      if forward {
        items := [x] + items;
      } else {
        items := items + [x];
      }
    }

    /** get_item_at_index. */
    function Get(i: nat): (r: Result<T>)
      reads this
      ensures r.Success? <==> i < |items|
      ensures r.Success? ==> r.value == items[i]
    {
      if i >= |items| then Failure(INDEX_OUT_OF_RANGE) else Success(items[i])
    }
  }

  /** An FL (over a forward base) or an RL (over a backward base). */
  datatype List<T> = List(base: Base<T>, slice: Slice)

  ghost predicate Valid<T>(l: List<T>)
    reads l.base
  {
    l.slice.start <= l.slice.end <= |l.base.items|
  }

  ghost predicate IsFL<T>(l: List<T>)
    reads l.base
  {
    Valid(l) && l.base.forward
  }

  ghost predicate IsRL<T>(l: List<T>)
    reads l.base
  {
    Valid(l) && !l.base.forward
  }

  /** The items the list iterates over, first to last. */
  ghost function Elems<T>(l: List<T>): (s: seq<T>)
    reads l.base
    requires Valid(l)
    ensures |s| == l.slice.Size()
  {
    l.base.items[l.slice.start..l.slice.end]
  }

  /** `l == NilFL` / `l == NilRL`: the window is the one at 0. */
  function IsNil<T>(l: List<T>): (r: bool)
    reads l.base
    requires Valid(l)
    ensures r ==> Elems(l) == []
  {
    l.slice.start == 0 && l.slice.end == 0
  }

  /** size(). */
  function Size<T>(l: List<T>): (n: nat)
    reads l.base
    requires Valid(l)
    ensures n == |Elems(l)|
  {
    l.slice.end - l.slice.start
  }

  /** The default FL() / RL(): a fresh empty base and the window at 0. */
  method Nil<T>(forward: bool) returns (l: List<T>)
    ensures fresh(l.base) && l.base.forward == forward
    ensures Valid(l) && l.base.items == [] && IsNil(l) && Elems(l) == []
  {
    var b := new Base<T>(forward);
    l := List(b, Slice(0, 0));
  }

  /** The initializer-list constructor: emplace each item in turn. An FL
    * therefore iterates over its initializer backwards. */
  method FromItems<T>(forward: bool, xs: seq<T>) returns (l: List<T>)
    ensures fresh(l.base) && l.base.forward == forward && Valid(l)
    ensures l.slice == Slice(0, |xs|) && l.base.items == Elems(l)
    ensures Elems(l) == if forward then Reverse(xs) else xs
  {
    var b := new Base<T>(forward);
    var i := 0;
    while i < |xs|
      invariant 0 <= i <= |xs|
      invariant b.forward == forward
      invariant b.items == if forward then Reverse(xs[..i]) else xs[..i]
    {
      assert xs[..i + 1] == xs[..i] + [xs[i]];
      b.Emplace(xs[i]);
      i := i + 1;
    }
    assert xs[..i] == xs;
    var s := SliceIn(|b.items|, 0, i);
    l := List(b, s.value);
  }

  function Reverse<T>(s: seq<T>): (r: seq<T>)
    ensures |r| == |s|
  {
    if s == [] then [] else [s[|s| - 1]] + Reverse(s[..|s| - 1])
  }

  lemma {:induction false} ReverseAt<T>(s: seq<T>, k: nat)
    requires k < |s|
    ensures Reverse(s)[k] == s[|s| - 1 - k]
  {
    if k > 0 {
      ReverseAt(s[..|s| - 1], k - 1);
    }
  }

  lemma {:induction false} ReverseReverse<T>(s: seq<T>)
    ensures Reverse(Reverse(s)) == s
  {
    var r := Reverse(Reverse(s));
    forall k | 0 <= k < |s|
      ensures r[k] == s[k]
    {
      ReverseAt(Reverse(s), k);
      ReverseAt(s, |s| - 1 - k);
    }
  }

  /** push(item). When the window ends at the end of the base, the base is
    * shared and the item emplaced into it; otherwise the window's items are
    * emplaced one by one into a fresh base first. The new window is
    * slice(0, end + 1) either way. */
  method Push<T>(l: List<T>, x: T) returns (r: Result<List<T>>)
    requires Valid(l)
    modifies l.base
    // the window reaches the end of the base: share it
    ensures l.slice.end == old(|l.base.items|) ==>
      && l.base.items == (if l.base.forward then [x] + old(l.base.items) else old(l.base.items) + [x])
      && r == Success(List(l.base, Slice(0, l.slice.end + 1)))
    // otherwise copy: the old base is untouched, and the copy only fits the
    // new window when the old window started at 0
    ensures l.slice.end != old(|l.base.items|) ==>
      && l.base.items == old(l.base.items)
      && (r.Success? <==> l.slice.start == 0)
      && (r.Success? ==> fresh(r.value.base) && r.value.base.forward == l.base.forward
                         && r.value.slice == Slice(0, l.slice.end + 1)
                         && r.value.base.items ==
                              if l.base.forward then [x] + Reverse(old(Elems(l))) else old(Elems(l)) + [x])
    ensures r.Success? ==> Valid(r.value) && r.value.base.forward == l.base.forward
  {
    var base := l.base;
    if l.slice.end != |base.items| {
      ghost var view := Elems(l);
      var copy := new Base<T>(base.forward);
      var i := l.slice.start;
      while i < l.slice.end
        invariant l.slice.start <= i <= l.slice.end
        invariant base.items == old(base.items)
        invariant copy.forward == base.forward
        invariant copy.items == if base.forward then Reverse(view[..i - l.slice.start])
                                else view[..i - l.slice.start]
      {
        var k := i - l.slice.start;
        assert view[..k + 1] == view[..k] + [base.items[i]];
        copy.Emplace(base.items[i]);
        i := i + 1;
      }
      assert view[..i - l.slice.start] == view;
      copy.Emplace(x);
      var s := SliceIn(|copy.items|, 0, l.slice.end + 1);
      if s.Failure? {
        return Failure(s.error);
      }
      r := Success(List(copy, s.value));
    } else {
      base.Emplace(x);
      var s := SliceIn(|base.items|, 0, l.slice.end + 1);
      r := Success(List(base, s.value));
    }
  }

  /** FL::extract: the item at the start of the window and the window one
    * further on. It reads the base at the window's start even when the
    * window is empty. */
  function ExtractFL<T>(l: List<T>): (r: Result<(T, List<T>)>)
    reads l.base
    requires Valid(l)
    ensures Size(l) > 0 ==>
      && r.Success? && r.value.0 == Elems(l)[0]
      && r.value.1.base == l.base && Valid(r.value.1) && Elems(r.value.1) == Elems(l)[1..]
    ensures Size(l) == 0 ==> (r.Success? <==> l.slice.start < |l.base.items|)
    ensures Size(l) == 0 && r.Success? ==> r.value.0 == l.base.items[l.slice.start]
  {
    match l.base.Get(l.slice.start)
    case Failure(e) => Failure(e)
    case Success(a) =>
      var s := SliceIn(|l.base.items|, l.slice.start + 1, l.slice.end);
      Success((a, List(l.base, s.value)))
  }

  /** RL::extract: the item before the window's end and the window one
    * shorter. With the window at 0 the index end - 1 wraps to SIZE_MAX and
    * the read throws. */
  function ExtractRL<T>(l: List<T>): (r: Result<(T, List<T>)>)
    reads l.base
    requires Valid(l)
    ensures Size(l) > 0 ==>
      && r.Success? && r.value.0 == Elems(l)[Size(l) - 1]
      && r.value.1.base == l.base && Valid(r.value.1) && Elems(r.value.1) == Elems(l)[..Size(l) - 1]
    ensures Size(l) == 0 ==> (r.Success? <==> l.slice.end > 0)
    ensures Size(l) == 0 && r.Success? ==> r.value.0 == l.base.items[l.slice.end - 1]
  {
    if l.slice.end == 0 then Failure(INDEX_OUT_OF_RANGE)
    else
      // inside a valid window the read cannot throw
      var a := l.base.Get(l.slice.end - 1).value;
      var s := SliceIn(|l.base.items|, l.slice.start, l.slice.end - 1);
      assert Size(l) > 0 ==> s.value == Slice(l.slice.start, l.slice.end - 1);
      SliceShorter(l.base.items, l.slice.start, l.slice.end);
      Success((a, List(l.base, s.value)))
  }

  /** The window one shorter holds the window's items but the last. */
  lemma SliceShorter<T>(items: seq<T>, start: nat, end: nat)
    requires start <= end <= |items|
    ensures start < end ==> items[start..end - 1] == items[start..end][..end - 1 - start]
  {
  }

  /** Equality of two lists: item by item over the two windows. */
  method Equal<T(==)>(a: List<T>, b: List<T>) returns (eq: bool)
    requires Valid(a) && Valid(b)
    ensures eq <==> Elems(a) == Elems(b)
  {
    if Size(a) != Size(b) {
      return false;
    }
    var i := 0;
    while i < Size(a)
      invariant 0 <= i <= Size(a)
      invariant Elems(a)[..i] == Elems(b)[..i]
    {
      if a.base.items[a.slice.start + i] != b.base.items[b.slice.start + i] {
        assert Elems(a)[i] != Elems(b)[i];
        return false;
      }
      assert Elems(a)[..i + 1] == Elems(a)[..i] + [Elems(a)[i]];
      assert Elems(b)[..i + 1] == Elems(b)[..i] + [Elems(b)[i]];
      i := i + 1;
    }
    assert Elems(a)[..i] == Elems(a) && Elems(b)[..i] == Elems(b);
    return true;
  }

  /** ToFL(rl): push every item of the RL, first to last, onto an FL that
    * starts empty. Each push shares the FL's own base and puts the item in
    * front, so the FL holds the RL's items in REVERSE order. */
  method ToFL<T>(rl: List<T>) returns (fl: List<T>)
    requires IsRL(rl)
    ensures fresh(fl.base) && IsFL(fl)
    ensures Elems(fl) == Reverse(Elems(rl))
  {
    ghost var src := Elems(rl);
    fl := Nil(true);
    var i := rl.slice.start;
    while i < rl.slice.end
      invariant rl.slice.start <= i <= rl.slice.end
      invariant fresh(fl.base) && fl.base.forward
      invariant rl.base.items == old(rl.base.items) && Elems(rl) == src
      invariant fl.slice == Slice(0, |fl.base.items|)
      invariant fl.base.items == Reverse(src[..i - rl.slice.start])
    {
      var k := i - rl.slice.start;
      assert src[..k + 1] == src[..k] + [rl.base.items[i]];
      var pushed := Push(fl, rl.base.items[i]);
      fl := pushed.value;
      i := i + 1;
    }
    assert src[..i - rl.slice.start] == src;
  }

  /** ToRL(fl): push every item of the FL, first to last, onto an RL that
    * starts empty; the RL holds them in the same order. */
  method ToRL<T>(fl: List<T>) returns (rl: List<T>)
    requires IsFL(fl)
    ensures fresh(rl.base) && IsRL(rl)
    ensures Elems(rl) == Elems(fl)
  {
    ghost var src := Elems(fl);
    rl := Nil(false);
    var i := fl.slice.start;
    while i < fl.slice.end
      invariant fl.slice.start <= i <= fl.slice.end
      invariant fresh(rl.base) && !rl.base.forward
      invariant fl.base.items == old(fl.base.items) && Elems(fl) == src
      invariant rl.slice == Slice(0, |rl.base.items|)
      invariant rl.base.items == src[..i - fl.slice.start]
    {
      var k := i - fl.slice.start;
      assert src[..k + 1] == src[..k] + [fl.base.items[i]];
      var pushed := Push(rl, fl.base.items[i]);
      rl := pushed.value;
      i := i + 1;
    }
    assert src[..i - fl.slice.start] == src;
  }

  // --------------------------------------------------- what sharing leads to

  /** Pushing onto an FL that reaches the end of its base changes the items
    * of every other FL over that base: `a` held [1], and after `b := a.push(2)`
    * it holds [2]. */
  method SharedPushChangesOthers() returns (a: List<int>, b: List<int>)
    ensures Valid(a) && Valid(b) && a.base == b.base
    ensures Elems(a) == [2] && Elems(b) == [2, 1]
  {
    var nil := Nil<int>(true);
    var pa := Push(nil, 1);
    a := pa.value;
    assert Elems(a) == [1];
    var pb := Push(a, 2);
    b := pb.value;
  }

  /** Pushing onto an FL whose window stops short of its base's end copies
    * it backwards: with c holding [3, 2] over the base [3, 2, 1], c.push(4)
    * holds [4, 2, 3] rather than [4, 3, 2]. */
  method CopyingPushReverses() returns (c: List<int>, d: List<int>)
    ensures Valid(c) && Valid(d)
    ensures Elems(c) == [3, 2] && Elems(d) == [4, 2, 3]
  {
    var b := new Base<int>(true);
    b.items := [3, 2, 1];
    c := List(b, Slice(0, 2));
    var pd := Push(c, 4);
    assert c.base.items == [3, 2, 1];
    assert Elems(c) == [3, 2];
    d := pd.value;
    assert Reverse([3, 2]) == [2, 3] by {
      assert Reverse([3]) == [3];
    }
  }

  /** Pushing onto the rest of an extracted FL brings the extracted head
    * back: the rest of [1, 2] is [2], pushing 0 onto it gives [0, 1, 2],
    * and the rest itself then reads [1]. */
  method PushAfterExtractRestoresHead() returns (head: int, rest: List<int>, pushed: List<int>)
    ensures head == 1 && Valid(rest) && Valid(pushed)
    ensures Elems(pushed) == [0, 1, 2] && Elems(rest) == [1]
  {
    var l := FromItems(true, [2, 1]);
    assert Reverse([2, 1]) == [1, 2] by {
      assert [2, 1][..1] == [2];
      assert Reverse([2]) == [2];
    }
    var e := ExtractFL(l);
    head, rest := e.value.0, e.value.1;
    assert Elems(rest) == [2];
    var p := Push(rest, 0);
    pushed := p.value;
  }

  /** An FL window can be empty without being Nil, and extracting from it
    * reads an item that lies outside the window. */
  method EmptyButNotNil() returns (l: List<int>, e: Result<(int, List<int>)>)
    ensures Valid(l) && Elems(l) == [] && !IsNil(l)
    ensures e.Success? && e.value.0 == 7
  {
    var b := new Base<int>(true);
    b.items := [5, 6, 7];
    l := List(b, Slice(2, 2));
    e := ExtractFL(l);
  }

  lemma ReverseOneToFour()
    ensures Reverse([1, 2, 3, 4]) == [4, 3, 2, 1]
  {
    assert [1, 2][..1] == [1] && [1, 2, 3][..2] == [1, 2] && [1, 2, 3, 4][..3] == [1, 2, 3];
    assert Reverse([1]) == [1];
    assert Reverse([1, 2]) == [2, 1];
    assert Reverse([1, 2, 3]) == [3, 2, 1];
  }

  /** The list test on FL {1, 2, 3, 4}: 4 is extracted first. */
  method ExtractFromFL() returns (x: int)
    ensures x == 4
  {
    var fl := FromItems(true, [1, 2, 3, 4]);
    ReverseOneToFour();
    x := ExtractFL(fl).value.0;
  }

  /** The list test on RL {1, 2, 3, 4}: 4 is extracted, from the end. */
  method ExtractFromRL() returns (x: int)
    ensures x == 4
  {
    var rl := FromItems(false, [1, 2, 3, 4]);
    assert Elems(rl) == [1, 2, 3, 4];
    x := ExtractRL(rl).value.0;
  }

  /** The list test that pushes 1, 2, 3 onto an empty FL: 3 is extracted. */
  method ExtractAfterPushes() returns (x: int)
    ensures x == 3
  {
    var c := Nil<int>(true);
    var p := Push(c, 1);
    p := Push(p.value, 2);
    p := Push(p.value, 3);
    assert Elems(p.value) == [3, 2, 1];
    x := ExtractFL(p.value).value.0;
  }

  // ------------------------------------------------------- Maybe, Set, Map

  /** Maybe::value_ref and `->`: the value, or a throw on Nothing. */
  function ValueOf<T>(m: Option<T>): (r: Result<T>)
    ensures r.Success? <==> m.Some?
    ensures m.Some? ==> r.value == m.value
  {
    match m
    case Some(v) => Success(v)
    case None => Failure(NOTHING_VALUE)
  }

  /** Map::insert: a copy with the key added, unless the key is there
    * already: `std::map::insert` never overwrites. */
  function MapInsert<K, V>(m: map<K, V>, k: K, v: V): (r: map<K, V>)
    ensures r.Keys == m.Keys + {k}
    ensures forall j :: j in m ==> r[j] == m[j]
    ensures k !in m ==> r[k] == v
  {
    if k in m then m else m[k := v]
  }

  /** Map::lookup. */
  function Lookup<K, V>(m: map<K, V>, k: K): (r: Option<V>)
    ensures r.Some? <==> k in m
    ensures r.Some? ==> r.value == m[k]
  {
    if k in m then Some(m[k]) else None
  }

  /** LazyValue: the wrapped computation runs on the first call only; every
    * call returns its value. */
  class Lazy<R> {
    const func: () -> R
    var called: bool
    var value: Option<R>

    ghost predicate Valid()
      reads this
    {
      called ==> value == Some(func())
    }

    constructor (f: () -> R)
      ensures Valid() && func == f && !called
    {
      func := f;
      called := false;
      value := None;
    }

    /** operator(). */
    method Get() returns (r: R)
      requires Valid()
      modifies this
      ensures Valid() && called && r == func()
      ensures old(called) ==> value == old(value)
    {
      if called {
        r := value.value;
      } else {
        r := func();
        value := Some(r);
        called := true;
      }
    }
  }
}
