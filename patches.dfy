/** The primitive patches of darcs_types.h and the constructors of
  * darcs.cpp: file creation and removal, hunks (replace some lines by
  * others at a line number) and token replacements, each tied to an anchor
  * path, and named patches that carry an identity and explicit
  * dependencies.
  *
  * Lists inside patches are plain sequences here, in iteration order: the
  * old and new lines of a hunk are the RL they are pushed onto, first line
  * first; the payload of a named patch is its FL, first patch first. */
module Patches {
  import TextBuffer

  /** PATCH_TYPE, the first key of Patch::cmp. */
  datatype PatchType = ADD_FILE | REMOVE_FILE | HUNK | TOK_REPLACE

  /** An old or new token of a token replacement. tryTokReplace throws when
    * the old token is empty, so the model only builds non-empty ones. */
  type Token = s: string | |s| > 0 witness "_"

  datatype Patch =
    | AddFile
    | RemoveFile
    /** Replace `oldLines`, found at `line`, by `newLines`. */
    | FileHunk(line: nat, oldLines: seq<string>, newLines: seq<string>)
    /** Replace the token `o` by `n` wherever it stands as a whole token,
      * tokens being runs of the characters `t` describes. */
    | TokReplace(t: string, o: Token, n: Token)

  /** type(): the tag of each kind of patch, a different one per kind. */
  function TypeOf(p: Patch): (r: PatchType)
    ensures r == ADD_FILE <==> p.AddFile?
    ensures r == REMOVE_FILE <==> p.RemoveFile?
    ensures r == HUNK <==> p.FileHunk?
    ensures r == TOK_REPLACE <==> p.TokReplace?
  {
    match p
    case AddFile => ADD_FILE
    case RemoveFile => REMOVE_FILE
    case FileHunk(_, _, _) => HUNK
    case TokReplace(_, _, _) => TOK_REPLACE
  }

  /** invert: creation and removal undo each other, a hunk puts the old lines
    * back at the same line, a token replacement swaps its tokens back. */
  function Invert(p: Patch): (r: Patch)
    ensures TypeOf(p) == ADD_FILE <==> TypeOf(r) == REMOVE_FILE
    ensures TypeOf(p) == REMOVE_FILE <==> TypeOf(r) == ADD_FILE
    ensures p.FileHunk? <==> r.FileHunk?
    ensures p.FileHunk? ==> r.line == p.line && r.oldLines == p.newLines && r.newLines == p.oldLines
    ensures p.TokReplace? <==> r.TokReplace?
    ensures p.TokReplace? ==> r.t == p.t && r.o == p.n && r.n == p.o
  {
    match p
    case AddFile => RemoveFile
    case RemoveFile => AddFile
    case FileHunk(line, o, n) => FileHunk(line, n, o)
    case TokReplace(t, o, n) => TokReplace(t, n, o)
  }

  /** Inverting twice gives the patch back. */
  lemma InvertInvolutive(p: Patch)
    ensures Invert(Invert(p)) == p
  {
  }

  /** A hunk that changes nothing: no old lines and no new lines. Every
    * patch commutes with it. */
  predicate IsEmptyHunk(p: Patch)
  {
    p.FileHunk? && p.oldLines == [] && p.newLines == []
  }

  /** PatchInfo: the identity of a named patch. */
  datatype PatchInfo = PatchInfo(date: string, name: string, author: string, log: seq<string>, legacyIsInverted: bool)

  /** PatchInfo(name): every other field at its default. */
  function InfoNamed(name: string): (i: PatchInfo)
    ensures i.name == name
    ensures i.date == [] && i.author == [] && i.log == [] && !i.legacyIsInverted
  {
    PatchInfo([], name, [], [], false)
  }

  /** AnchorPath: the set of names a patch is anchored to. */
  datatype AnchorPath = AnchorPath(names: set<string>)

  /** AnchorPath(): no names. */
  const DefaultAnchor: AnchorPath := AnchorPath({})

  /** Core_FP: a patch together with the anchor path it applies to. */
  datatype CoreFP = CoreFP(anchor: AnchorPath, patch: Patch)

  /** invert(Core_FP): same anchor, inverted patch. */
  function InvertFP(x: CoreFP): (r: CoreFP)
    ensures r.anchor == x.anchor && Invert(r.patch) == x.patch
  {
    InvertInvolutive(x.patch);
    CoreFP(x.anchor, Invert(x.patch))
  }

  /** Named: an identity `n`, the identities `d` it depends on explicitly,
    * and its primitive patches `p`, first to last. */
  datatype Named = Named(n: PatchInfo, d: set<PatchInfo>, p: seq<CoreFP>)

  /** Named::ident. */
  function Ident(q: Named): PatchInfo
  {
    q.n
  }

  /** makeHunk_T(line, old, new) / the FileHunk(line, text, text)
    * constructor: each text is cut into lines by lines(), which are pushed
    * in order. The lines hold no newline, are absent exactly for an empty
    * text, and join back to the text once its final newline, if any, is
    * added; HunkLinesDetermined shows that this fixes them. */
  function MakeHunk(line: nat, oldText: string, newText: string): (h: Patch)
    ensures h.FileHunk? && h.line == line
    ensures forall i :: 0 <= i < |h.oldLines| ==> TextBuffer.NEW_LINE !in h.oldLines[i]
    ensures forall i :: 0 <= i < |h.newLines| ==> TextBuffer.NEW_LINE !in h.newLines[i]
    ensures oldText == TextBuffer.JoinLines(h.oldLines) +
      (if oldText != [] && oldText[|oldText| - 1] == TextBuffer.NEW_LINE then [TextBuffer.NEW_LINE] else [])
    ensures newText == TextBuffer.JoinLines(h.newLines) +
      (if newText != [] && newText[|newText| - 1] == TextBuffer.NEW_LINE then [TextBuffer.NEW_LINE] else [])
    ensures h.oldLines == [] <==> oldText == []
    ensures h.newLines == [] <==> newText == []
  {
    TextBuffer.SplitLinesRoundTrip(oldText);
    TextBuffer.SplitLinesRoundTrip(newText);
    FileHunk(line, TextBuffer.SplitLines(oldText), TextBuffer.SplitLines(newText))
  }

  /** Any lines that hold no newline, are absent exactly for an empty text
    * and join back to the text are the lines of the hunk. */
  lemma HunkLinesDetermined(line: nat, oldText: string, newText: string, ls: seq<string>)
    requires forall i :: 0 <= i < |ls| ==> TextBuffer.NEW_LINE !in ls[i]
    requires ls == [] <==> oldText == []
    requires oldText == TextBuffer.JoinLines(ls) +
      (if oldText != [] && oldText[|oldText| - 1] == TextBuffer.NEW_LINE then [TextBuffer.NEW_LINE] else [])
    ensures ls == MakeHunk(line, oldText, newText).oldLines
    ensures MakeHunk(line, newText, oldText).newLines == ls
  {
    TextBuffer.SplitLinesUnique(oldText, ls);
  }

  /** makeNamedWithType_T(label, patch): a named patch labelled `uniqueLabel`, with
    * no explicit dependencies, holding the one patch under the default
    * anchor. */
  function MakeNamedWithType(uniqueLabel: string, patch: Patch): (q: Named)
    ensures Ident(q) == InfoNamed(uniqueLabel) && q.d == {}
    ensures q.p == [CoreFP(DefaultAnchor, patch)]
  {
    Named(InfoNamed(uniqueLabel), {}, [CoreFP(DefaultAnchor, patch)])
  }

  /** makeNamedHunk_T(label, line, old, new). */
  function MakeNamedHunk(uniqueLabel: string, line: nat, oldText: string, newText: string): (q: Named)
    ensures Ident(q) == InfoNamed(uniqueLabel) && q.d == {} && |q.p| == 1
    ensures q.p[0].anchor == DefaultAnchor && q.p[0].patch == MakeHunk(line, oldText, newText)
  {
    MakeNamedWithType(uniqueLabel, MakeHunk(line, oldText, newText))
  }

  /** The hunks "edit 1" and "edit 2" of the sample history of a one-line
    * file. */
  lemma EditHistoryHunks()
    ensures MakeHunk(1, "", "hello") == FileHunk(1, [], ["hello"])
    ensures MakeHunk(1, "hello", "hello world") == FileHunk(1, ["hello"], ["hello world"])
  {
    TextBuffer.SingleLine("");
    TextBuffer.SingleLine("hello");
    TextBuffer.SingleLine("hello world");
  }

  /** A hunk adding five empty lines, and one that changes nothing, as in
    * the other sample histories. */
  lemma BlankLineHunks()
    ensures MakeHunk(3, "", "\n\n\n\n\n") == FileHunk(3, [], ["", "", "", "", ""])
    ensures IsEmptyHunk(MakeHunk(4, "", ""))
  {
    TextBuffer.SingleLine("");
    TextBuffer.OnlyNewLines("\n\n\n\n\n");
  }
}
