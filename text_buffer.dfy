/** The growable character buffer every string of the patch model lives in
  * (BasicStringAdapter, PointerAdapter and CharAdapter in adapter.h).
  *
  * Positions and lengths are `size_t`; the value `-1` passed for a position
  * or a length is SIZE_MAX and means "the end" / "everything". The buffer
  * ends with the end-of-file character '\0', which is not part of its
  * contents. */
module TextBuffer {
  import opened Wrappers

  const WORD: int := 0x1_0000_0000_0000_0000
  /** `size_t`, 64 bits wide. */
  type usize = x: int | 0 <= x < WORD
  /** `(size_t) -1`. */
  const SIZE_MAX: usize := 0xFFFF_FFFF_FFFF_FFFF
  /** CharAdapter::get_new_line. */
  const NEW_LINE: char := '\n'
  /** CharAdapter::get_end_of_file. */
  const EOF: char := '\0'

  // ---------------------------------------------------------------- clamping

  /** clamp_pos: SIZE_MAX and every position past the end become the end. */
  function ClampPos(size: usize, pos: usize): (p: usize)
    ensures p <= size
    ensures pos < size ==> p == pos
    ensures pos >= size ==> p == size
  {
    if pos == SIZE_MAX then size else if pos >= size then size else pos
  }

  /** clamp_length as written: the END index of the range that starts at
    * `p` and spans `len` characters. The sum `p + len` is taken modulo
    * 2^64, as `size_t` arithmetic is. */
  function ClampLength(size: usize, p: usize, len: usize): (e: usize)
    requires p <= size
    ensures e <= size
    ensures p == size ==> e == 0
    ensures p < size && len == SIZE_MAX ==> e == size
    ensures p < size && len < SIZE_MAX && p + len < WORD ==> e == Min(p + len, size)
    ensures p < size && len < SIZE_MAX && p + len >= WORD ==> e == Min(p + len - WORD, size)
  {
    if p == size then 0
    else if len == SIZE_MAX then size
    else
      var sum := (p + len) % WORD;
      if sum >= size then size else sum
  }

  /** The saturating end index clamp_length evidently means: `p + len`,
    * capped at the size, with no wrap-around. */
  function ClampEnd(size: usize, p: usize, len: usize): (e: usize)
    requires p <= size
    ensures p <= e <= size
    ensures e - p == Min(len, size - p)
  {
    if len >= size - p then size else p + len
  }

  function Min(a: int, b: int): int { if a <= b then a else b }

  /** A position near the end plus a length near SIZE_MAX wraps around:
    * clamp_length then yields an end index that lies BEFORE the start. */
  lemma ClampLengthWraps()
    ensures ClampLength(5, 2, SIZE_MAX - 1) == 0
    ensures ClampEnd(5, 2, SIZE_MAX - 1) == 5
  {
  }

  // ----------------------------------------------------------- line splitting

  function CountOf(s: string, c: char): (n: nat)
    ensures n <= |s|
  {
    if s == [] then 0 else CountOf(s[..|s| - 1], c) + (if s[|s| - 1] == c then 1 else 0)
  }

  /** The pieces of `s` between newline characters, the text after the last
    * newline included (possibly empty): `s` cut at every '\n'. Written
    * left to right, one character at a time, as the loop in lines() reads. */
  function Pieces(s: string): (r: seq<string>)
    ensures |r| >= 1
  {
    if s == [] then [""]
    else
      var p := Pieces(s[..|s| - 1]);
      if s[|s| - 1] == NEW_LINE then p + [""]
      else p[..|p| - 1] + [p[|p| - 1] + [s[|s| - 1]]]
  }

  /** The lines lines() returns: no lines for an empty buffer, and no empty
    * line after a final newline. */
  function SplitLines(s: string): seq<string>
  {
    if s == [] then []
    else if s[|s| - 1] == NEW_LINE then Pieces(s)[..|Pieces(s)| - 1]
    else Pieces(s)
  }

  /** The lines glued back together with a newline between neighbours. */
  function JoinLines(ls: seq<string>): string
  {
    if ls == [] then []
    else if |ls| == 1 then ls[0]
    else JoinLines(ls[..|ls| - 1]) + [NEW_LINE] + ls[|ls| - 1]
  }

  /** Cutting at every newline gives one piece more than there are
    * newlines. */
  lemma {:induction false} PiecesCount(s: string)
    ensures |Pieces(s)| == CountOf(s, NEW_LINE) + 1
  {
    if s != [] {
      PiecesCount(s[..|s| - 1]);
    }
  }

  /** No piece holds a newline. */
  lemma {:induction false} PiecesNoNewLine(s: string)
    ensures forall i :: 0 <= i < |Pieces(s)| ==> NEW_LINE !in Pieces(s)[i]
  {
    if s != [] {
      var init := s[..|s| - 1];
      var c := s[|s| - 1];
      PiecesNoNewLine(init);
      var p := Pieces(init);
      if c != NEW_LINE {
        forall i | 0 <= i < |Pieces(s)| ensures NEW_LINE !in Pieces(s)[i] {
          if i == |p| - 1 {
            assert Pieces(s)[i] == p[i] + [c];
          } else {
            assert Pieces(s)[i] == p[i];
          }
        }
      }
    }
  }

  /** Gluing the pieces back with newlines gives the text back. */
  lemma {:induction false} PiecesJoin(s: string)
    ensures JoinLines(Pieces(s)) == s
  {
    if s != [] {
      var init := s[..|s| - 1];
      var c := s[|s| - 1];
      PiecesJoin(init);
      var p := Pieces(init);
      assert s == init + [c];
      if c == NEW_LINE {
        JoinNewLine(p);
      } else {
        var q, last := p[..|p| - 1], p[|p| - 1];
        assert q + [last] == p;
        JoinLast(q, last, [c]);
      }
    }
  }

  /** An empty last line adds a newline to the joined text. */
  lemma JoinNewLine(p: seq<string>)
    requires p != []
    ensures JoinLines(p + [""]) == JoinLines(p) + [NEW_LINE]
  {
    assert (p + [""])[..|p|] == p;
  }

  /** Cutting at every newline gives one piece more than there are
    * newlines, no piece holds a newline, and gluing the pieces back with
    * newlines gives the text back. */
  lemma PiecesSplit(s: string)
    ensures |Pieces(s)| == CountOf(s, NEW_LINE) + 1
    ensures forall i :: 0 <= i < |Pieces(s)| ==> NEW_LINE !in Pieces(s)[i]
    ensures JoinLines(Pieces(s)) == s
  {
    PiecesCount(s);
    PiecesNoNewLine(s);
    PiecesJoin(s);
  }

  /** Appending text to the last line appends it to the joined text. */
  lemma JoinLast(ls: seq<string>, last: string, extra: string)
    ensures JoinLines(ls + [last + extra]) == JoinLines(ls + [last]) + extra
  {
    if ls == [] {
      assert ls + [last + extra] == [last + extra];
      assert ls + [last] == [last];
    } else {
      assert (ls + [last + extra])[..|ls|] == ls;
      assert (ls + [last])[..|ls|] == ls;
    }
  }

  /** lines() round trip: the lines hold no newline, and joining them with
    * newlines, plus the final newline when the text had one, gives the text
    * back. So lines() loses nothing but the distinction between "ends with a
    * newline" and "does not", which the caller can read off the text. */
  lemma {:induction false} SplitLinesRoundTrip(s: string)
    ensures forall i :: 0 <= i < |SplitLines(s)| ==> NEW_LINE !in SplitLines(s)[i]
    ensures s == JoinLines(SplitLines(s)) + (if s != [] && s[|s| - 1] == NEW_LINE then [NEW_LINE] else [])
  {
    PiecesSplit(s);
    if s != [] && s[|s| - 1] == NEW_LINE {
      var init := s[..|s| - 1];
      var p := Pieces(init);
      assert s == init + [NEW_LINE];
      assert Pieces(s) == p + [""];
      assert SplitLines(s) == p;
      PiecesSplit(init);
    }
  }

  /** Text without a newline, appended, extends the last piece. */
  lemma {:induction false} PiecesAppend(u: string, w: string)
    requires NEW_LINE !in w
    ensures var p := Pieces(u);
            Pieces(u + w) == p[..|p| - 1] + [p[|p| - 1] + w]
    decreases |w|
  {
    var p := Pieces(u);
    if w == [] {
      assert u + w == u && p[|p| - 1] + w == p[|p| - 1];
      assert p[..|p| - 1] + [p[|p| - 1]] == p;
    } else {
      var v := w[..|w| - 1];
      var c := w[|w| - 1];
      PiecesAppend(u, v);
      assert (u + w)[..|u + w| - 1] == u + v;
      assert (p[|p| - 1] + v) + [c] == p[|p| - 1] + w;
    }
  }

  /** A newline appended opens an empty piece. */
  lemma PiecesNewLine(t: string)
    ensures Pieces(t + [NEW_LINE]) == Pieces(t) + [""]
  {
    assert (t + [NEW_LINE])[..|t|] == t;
  }

  /** A newline and a line without one, appended, add that line as a
    * piece. */
  lemma PiecesLine(t: string, last: string)
    requires NEW_LINE !in last
    ensures Pieces(t + [NEW_LINE] + last) == Pieces(t) + [last]
  {
    PiecesNewLine(t);
    PiecesAppend(t + [NEW_LINE], last);
    var p := Pieces(t) + [""];
    assert p[..|p| - 1] == Pieces(t);
    assert p[|p| - 1] + last == last;
  }

  /** Cutting joined lines that hold no newline gives the lines back. */
  lemma {:induction false} PiecesOfJoin(ls: seq<string>)
    requires ls != []
    requires forall i :: 0 <= i < |ls| ==> NEW_LINE !in ls[i]
    ensures Pieces(JoinLines(ls)) == ls
    decreases |ls|
  {
    var n := |ls| - 1;
    var last := ls[n];
    assert NEW_LINE !in last;
    if n == 0 {
      SingleLine(last);
    } else {
      var init := ls[..n];
      assert forall i :: 0 <= i < |init| ==> NEW_LINE !in init[i] by {
        forall i | 0 <= i < |init| ensures NEW_LINE !in init[i] {
          assert init[i] == ls[i];
        }
      }
      assert ls == init + [last];
      PiecesOfJoin(init);
      JoinSnoc(init, last);
      PiecesLine(JoinLines(init), last);
    }
  }

  /** One more line: a newline, then the line. */
  lemma JoinSnoc(init: seq<string>, last: string)
    requires init != []
    ensures JoinLines(init + [last]) == JoinLines(init) + [NEW_LINE] + last
  {
    assert (init + [last])[..|init|] == init;
  }

  /** The lines of lines() are the only ones that hold no newline, are
    * absent exactly for the empty text, and join back to the text. */
  lemma SplitLinesUnique(s: string, ls: seq<string>)
    requires forall i :: 0 <= i < |ls| ==> NEW_LINE !in ls[i]
    requires ls == [] <==> s == []
    requires s == JoinLines(ls) + (if s != [] && s[|s| - 1] == NEW_LINE then [NEW_LINE] else [])
    ensures ls == SplitLines(s)
  {
    if s != [] {
      PiecesOfJoin(ls);
      var t := JoinLines(ls);
      if s[|s| - 1] == NEW_LINE {
        assert s == t + [NEW_LINE];
        assert s[..|s| - 1] == t;
        assert Pieces(s) == ls + [""];
        assert (ls + [""])[..|ls|] == ls;
      } else {
        assert s == t;
      }
    }
  }

  /** One more character: a newline opens a new piece, anything else
    * extends the last one. */
  lemma PiecesStep(s: string, i: nat)
    requires i < |s|
    ensures var p := Pieces(s[..i]);
            Pieces(s[..i + 1]) == if s[i] == NEW_LINE then p + [""] else p[..|p| - 1] + [p[|p| - 1] + [s[i]]]
  {
    assert s[..i + 1][..i] == s[..i];
  }

  /** The loop of lines() in terms of the pieces read so far: the closed
    * lines `ls` and the open one `c`. */
  lemma PiecesNext(s: string, i: nat, ls: seq<string>, c: string)
    requires i < |s| && ls + [c] == Pieces(s[..i])
    ensures Pieces(s[..i + 1]) == if s[i] == NEW_LINE then (ls + [c]) + [[]] else ls + [c + [s[i]]]
  {
    PiecesStep(s, i);
    var p := ls + [c];
    assert p[..|p| - 1] == ls && p[|p| - 1] == c;
  }

  /** The end of lines(): the open line is kept unless the text ends with a
    * newline. */
  lemma LinesFromPieces(s: string, ls: seq<string>, c: string)
    requires s != []
    requires s[|s| - 1] == NEW_LINE ==> ls + [c] == Pieces(s)
    requires s[|s| - 1] != NEW_LINE ==> ls == Pieces(s)
    ensures ls == SplitLines(s)
  {
    if s[|s| - 1] == NEW_LINE {
      assert (ls + [c])[..|ls|] == ls;
    }
  }

  /** Text without a newline is one line (none when empty). */
  lemma {:induction false} SingleLine(s: string)
    requires NEW_LINE !in s
    ensures Pieces(s) == [s]
    ensures SplitLines(s) == if s == [] then [] else [s]
  {
    if s != [] {
      SingleLine(s[..|s| - 1]);
      assert s[..|s| - 1] + [s[|s| - 1]] == s;
    }
  }

  /** Text made of newlines only is that many empty lines. */
  lemma {:induction false} OnlyNewLines(s: string)
    requires forall i :: 0 <= i < |s| ==> s[i] == NEW_LINE
    ensures Pieces(s) == seq(|s| + 1, _ => "")
    ensures SplitLines(s) == seq(|s|, _ => "")
  {
    if s != [] {
      OnlyNewLines(s[..|s| - 1]);
    }
  }

  /** line_count() and lines() disagree exactly on a final newline:
    * line_count counts the empty line after it, lines() does not. */
  lemma {:induction false} LineCountVersusLines(s: string)
    requires s != []
    ensures LineCountOf(s) == |SplitLines(s)| + (if s[|s| - 1] == NEW_LINE then 1 else 0)
  {
    PiecesSplit(s);
  }

  /** line_count's value: none for an empty buffer, else one more than the
    * newlines in it. */
  function LineCountOf(s: string): nat
  {
    if s == [] then 0 else CountOf(s, NEW_LINE) + 1
  }

  // ------------------------------------------------------------------ erasing

  /** erase(pos, length) as written: with `p` the clamped position and `l`
    * the clamped END index, it keeps the first `size - l` characters. */
  function EraseAsWritten(s: string, pos: usize, n: usize): (r: string)
    requires |s| < WORD
    ensures |r| <= |s| && r == s[..|r|]
    ensures var p := ClampPos(|s|, pos);
            |r| == |s| - (if p < |s| then ClampLength(|s|, p, n) else 0)
  {
    var p := ClampPos(|s|, pos);
    if p >= |s| then s
    else
      var l := ClampLength(|s|, p, n);
      if pos == 0 && l == |s| then []
      else if l != 0 then s[..|s| - l]
      else s
  }

  /** What erase evidently means: remove the `n` characters from the
    * clamped position on (fewer at the end of the buffer), keep the rest. */
  function EraseRange(s: string, pos: usize, n: usize): (r: string)
    requires |s| < WORD
    ensures var p := ClampPos(|s|, pos);
            var e := ClampEnd(|s|, p, n);
            |r| == |s| - (e - p) && r[..p] == s[..p] && r[p..] == s[e..]
  {
    var p := ClampPos(|s|, pos);
    s[..p] + s[ClampEnd(|s|, p, n)..]
  }

  /** Erasing two characters from position 1 of "abcdef" leaves "abc" where
    * "adef" is meant; erasing NO character at position 2 still removes two. */
  lemma EraseKeepsWrongPart()
    ensures EraseAsWritten("abcdef", 1, 2) == "abc"
    ensures EraseRange("abcdef", 1, 2) == "adef"
    ensures EraseAsWritten("abcdef", 2, 0) == "abcd"
    ensures EraseRange("abcdef", 2, 0) == "abcdef"
  {
    assert "abcdef"[..1] + "abcdef"[3..] == "adef";
    assert "abcdef"[..2] + "abcdef"[2..] == "abcdef";
  }

  /** replace(what, pos, length) as written: it clamps `length` to an END
    * index and hands that index to erase as a LENGTH, then inserts. */
  function ReplaceAsWritten(s: string, what: string, pos: usize, n: usize): (r: string)
    requires |s| + |what| < WORD
    ensures var p := ClampPos(|s|, pos);
            var k := |r| - |what|;
            |what| <= |r| <= |s| + |what| &&
            r == s[..Min(p, k)] + what + s[Min(p, k)..k]
    ensures var p := ClampPos(|s|, pos);
            var l := if p < |s| then ClampLength(|s|, p, n) else 0;
            |r| - |what| == if l != 0 then |EraseAsWritten(s, p, l)| else |s|
  {
    var p := ClampPos(|s|, pos);
    if p >= |s| then Inserted(s, what, p)
    else
      var l := ClampLength(|s|, p, n);
      var erased := if l != 0 then EraseAsWritten(s, p, l) else s;
      Inserted(erased, what, ClampPos(|erased|, p))
  }

  /** What replace evidently means: the `n` characters from the clamped
    * position on give way to `what`. */
  function ReplaceRange(s: string, what: string, pos: usize, n: usize): (r: string)
    requires |s| < WORD
    ensures var p := ClampPos(|s|, pos);
            var e := ClampEnd(|s|, p, n);
            r == s[..p] + what + s[e..]
  {
    var p := ClampPos(|s|, pos);
    var erased := EraseRange(s, p, n);
    erased[..p] + what + erased[p..]
  }

  /** Replacing two characters from position 1 of "abcdef" by "X" gives
    * "aXb" where "aXdef" is meant. */
  lemma ReplaceKeepsWrongPart()
    ensures ReplaceAsWritten("abcdef", "X", 1, 2) == "aXb"
    ensures ReplaceRange("abcdef", "X", 1, 2) == "aXdef"
  {
    assert EraseAsWritten("abcdef", 1, 3) == "ab";
    assert Inserted("ab", "X", 1) == "aXb";
    assert "abcdef"[..1] + "X" + "abcdef"[3..] == "aXdef";
  }

  /** insert's result: `what` placed before the character at `p`. */
  function Inserted(s: string, what: string, p: nat): (r: string)
    requires p <= |s|
    ensures |r| == |s| + |what|
    ensures r[..p] == s[..p] && r[p..p + |what|] == what && r[p + |what|..] == s[p..]
  {
    s[..p] + what + s[p..]
  }

  // ------------------------------------------------------------------- buffer

  /** A PointerAdapter<char, CharAdapter>: the characters before the '\0'
    * terminator. */
  class Buffer {
    var chars: seq<char>

    ghost predicate Valid()
      reads this
    {
      |chars| < SIZE_MAX
    }

    /** The default adapter holds the empty text. */
    constructor ()
      ensures Valid() && chars == []
    {
      chars := [];
    }

    /** length() / size(). */
    function Length(): (n: usize)
      reads this
      requires Valid()
      ensures n == |chars|
    {
      |chars|
    }

    /** init(ptr): copy up to the first end-of-file character. A null
      * pointer gives the empty text. */
    method Init(ptr: Option<seq<char>>)
      requires ptr.Some? ==> EOF in ptr.value && |ptr.value| < SIZE_MAX
      modifies this
      ensures Valid()
      ensures EOF !in chars
      ensures ptr.None? ==> chars == []
      ensures ptr.Some? ==> chars + [EOF] <= ptr.value
    {
      if ptr.None? {
        chars := [];
        return;
      }
      var src := ptr.value;
      var length := 0;
      while src[length] != EOF
        invariant 0 <= length < |src|
        invariant EOF !in src[..length]
        invariant EOF in src[length..]
        decreases |src| - length
      {
        assert src[length..] == [src[length]] + src[length + 1..];
        assert src[..length + 1] == src[..length] + [src[length]];
        length := length + 1;
      }
      InitLength(ptr, length);
      assert src[..length] + [EOF] == src[..length + 1];
    }

    /** init(ptr, length): copy exactly `length` characters. A null pointer
      * gives the empty text. */
    method InitLength(ptr: Option<seq<char>>, length: nat)
      requires ptr.Some? ==> length <= |ptr.value| && length < SIZE_MAX
      modifies this
      ensures Valid()
      ensures chars == if ptr.None? then [] else ptr.value[..length]
    {
      if ptr.None? {
        chars := [];
      } else {
        chars := ptr.value[..length];
      }
    }

    /** line_count(): a loop over the characters counting newlines. */
    method LineCount() returns (n: nat)
      requires Valid()
      ensures chars == [] ==> n == 0
      ensures chars != [] ==> n == CountOf(chars, NEW_LINE) + 1
    {
      if |chars| == 0 {
        return 0;
      }
      n := 1;
      var i := 0;
      while i < |chars|
        invariant 0 <= i <= |chars|
        invariant n == CountOf(chars[..i], NEW_LINE) + 1
      {
        assert chars[..i + 1][..i] == chars[..i];
        if chars[i] == NEW_LINE {
          n := n + 1;
        }
        i := i + 1;
      }
      assert chars[..i] == chars;
    }

    /** lines(): walk the characters, closing the current line at each
      * newline; the text after the last newline is a line of its own unless
      * the buffer ends with a newline. */
    method Lines() returns (ls: seq<string>)
      requires Valid()
      ensures ls == SplitLines(chars)
      ensures forall i :: 0 <= i < |ls| ==> NEW_LINE !in ls[i]
    {
      var text := chars;
      if |text| == 0 {
        return [];
      }
      ls := [];
      var c: string := [];
      var atLineStart := true;
      var i := 0;
      while i < |text|
        invariant 0 <= i <= |text|
        invariant ls + [c] == Pieces(text[..i])
        invariant atLineStart <==> (i == 0 || text[i - 1] == NEW_LINE)
      {
        PiecesNext(text, i, ls, c);
        atLineStart := false;
        if text[i] == NEW_LINE {
          atLineStart := true;
          ls := ls + [c];
          c := [];
        } else {
          c := c + [text[i]];
        }
        i := i + 1;
      }
      assert text[..i] == text;
      if !atLineStart {
        ls := ls + [c];
      }
      LinesFromPieces(text, ls, c);
      SplitLinesRoundTrip(text);
    }

    /** insert(what, pos): `what` goes before the character at the clamped
      * position; SIZE_MAX appends. */
    method Insert(what: string, pos: usize)
      requires Valid() && |chars| + |what| < SIZE_MAX
      modifies this
      ensures Valid()
      ensures chars == Inserted(old(chars), what, ClampPos(|old(chars)|, pos))
    {
      var p := ClampPos(|chars|, pos);
      chars := chars[..p] + what + chars[p..];
    }

    /** append(what) is insert(what, -1). */
    method Append(what: string)
      requires Valid() && |chars| + |what| < SIZE_MAX
      modifies this
      ensures Valid()
      ensures chars == old(chars) + what
    {
      Insert(what, SIZE_MAX);
      assert old(chars)[..|old(chars)|] == old(chars);
    }

    /** erase(pos, length), as written. */
    method Erase(pos: usize, n: usize)
      requires Valid()
      modifies this
      ensures Valid()
      ensures chars == EraseAsWritten(old(chars), pos, n)
    {
      var len := |chars|;
      var p := ClampPos(len, pos);
      if p >= len {
        return;
      }
      var l := ClampLength(len, p, n);
      if pos == 0 && l == len {
        chars := [];
      } else if l != 0 {
        chars := chars[..len - l];
      }
    }

    /** erase as evidently meant: remove the range, keep what follows. */
    method EraseFixed(pos: usize, n: usize)
      requires Valid()
      modifies this
      ensures Valid()
      ensures chars == EraseRange(old(chars), pos, n)
    {
      var len := |chars|;
      var p := ClampPos(len, pos);
      chars := chars[..p] + chars[ClampEnd(len, p, n)..];
    }

    /** replace(what, pos, length), as written: erase, then insert. */
    method Replace(what: string, pos: usize, n: usize)
      requires Valid() && |chars| + |what| < SIZE_MAX
      modifies this
      ensures Valid()
      ensures chars == ReplaceAsWritten(old(chars), what, pos, n)
    {
      var len := |chars|;
      var p := ClampPos(len, pos);
      if p >= len {
        Insert(what, p);
        return;
      }
      var l := ClampLength(len, p, n);
      if l != 0 {
        Erase(p, l);
      }
      Insert(what, p);
    }

    /** replace as evidently meant. */
    method ReplaceFixed(what: string, pos: usize, n: usize)
      requires Valid() && |chars| + |what| < SIZE_MAX
      modifies this
      ensures Valid()
      ensures chars == ReplaceRange(old(chars), what, pos, n)
    {
      var p := ClampPos(|chars|, pos);
      EraseFixed(p, n);
      Insert(what, p);
    }

    /** resize(capacity): the first min(capacity, length) characters stay;
      * characters added by growing are whatever the fresh allocation held. */
    method Resize(capacity: usize, fill: char)
      requires Valid() && capacity < SIZE_MAX
      modifies this
      ensures Valid()
      ensures |chars| == capacity
      ensures chars[..Min(capacity, |old(chars)|)] == old(chars)[..Min(capacity, |old(chars)|)]
      ensures capacity == |old(chars)| ==> chars == old(chars)
    {
      var len := |chars|;
      if capacity != len {
        if capacity == 0 {
          chars := [];
        } else if capacity < len {
          chars := chars[..capacity];
        } else {
          chars := chars + seq(capacity - len, _ => fill);
        }
      }
    }
  }
}
