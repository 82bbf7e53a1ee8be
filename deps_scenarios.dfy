/** The history of a one-line file from the sample driver (src/darcs_exe.cpp):
  * the file is created, a line "hello" is added, then changed to
  * "hello world". Each edit touches what the previous patch made, so each
  * depends directly on it, and the last one indirectly on the creation. */
module DepsScenarios {
  import opened Wrappers
  import opened Patches
  import opened Commute
  import opened SequenceCommute
  import opened Deps

  const Create: Named := Named(InfoNamed("p1"), {}, [CoreFP(DefaultAnchor, AddFile)])
  const Edit1: Named := Named(InfoNamed("edit 1"), {}, [CoreFP(DefaultAnchor, FileHunk(1, [], ["hello"]))])
  const Edit2: Named := Named(InfoNamed("edit 2"), {}, [CoreFP(DefaultAnchor, FileHunk(1, ["hello"], ["hello world"]))])

  /** The sample patches are those the driver builds. */
  lemma SampleBuilt()
    ensures Create == MakeNamedWithType("p1", AddFile)
    ensures Edit1 == MakeNamedHunk("edit 1", 1, "", "hello")
    ensures Edit2 == MakeNamedHunk("edit 2", 1, "hello", "hello world")
  {
    EditHistoryHunks();
  }

  /** The sample patches have distinct identities and no explicit
    * dependencies. */
  lemma SampleIdents()
    ensures Ident(Create) != Ident(Edit1) && Ident(Create) != Ident(Edit2) && Ident(Edit1) != Ident(Edit2)
    ensures Create.d == {} && Edit1.d == {} && Edit2.d == {}
  {
    assert Ident(Edit1).name[5] != Ident(Edit2).name[5];
  }

  /** A named patch with one primitive patch cannot move past another when
    * their primitive patches do not commute. */
  lemma SingletonsBlock(tr: TokRewriter, x: Named, y: Named)
    requires |x.p| == 1 && |y.p| == 1
    requires Commute2(tr, x.p[0], y.p[0]).None?
    ensures CommuteFL(tr, x, [y]).None?
  {
    assert x.p == [x.p[0]] && y.p == [y.p[0]];
    SingletonPayloads(tr, x.p[0], y.p[0]);
    assert Commute1(tr, x, y).None?;
    assert [y][0] == y;
  }

  /** Creating the file and adding its first line do not commute. */
  lemma CreateBlocksEdit1(tr: TokRewriter)
    ensures CommuteFL(tr, Create, [Edit1]).None?
  {
    FileCreationBlocks(tr, Create.p[0], Edit1.p[0]);
    SingletonsBlock(tr, Create, Edit1);
  }

  /** Adding a line and then changing it do not commute. */
  lemma Edit1BlocksEdit2(tr: TokRewriter)
    ensures CommuteFL(tr, Edit1, [Edit2]).None?
  {
    var x, y := Edit1.p[0], Edit2.p[0];
    assert CommuteHunkLines(1, 0, 1, 1, 1, 1).None?;
    assert CommuteFP(tr, DefaultAnchor, x.patch, y.patch).Failed?;
    assert Commute2(tr, x, y).None?;
    SingletonsBlock(tr, Edit1, Edit2);
  }

  /** Whatever commuter the folder uses, once neither edit commutes past
    * the patch after it. */
  ghost predicate Blocks(cfl: FLCommuter)
  {
    cfl(Create, [Edit1]).None? && cfl(Edit1, [Edit2]).None?
  }

  /** The graph of the first patch: the creation depends on nothing. */
  lemma SampleGraph1(cfl: FLCommuter)
    ensures DepsGraph(cfl, [Create]) == map[Ident(Create) := Deps({}, {})]
  {
    assert [Create][..0] == [];
  }

  /** The first edit depends on the creation of the file. */
  lemma SampleFold2(cfl: FLCommuter)
    requires Blocks(cfl)
    ensures var c := Ident(Create);
      FoldDeps(cfl, [Create], [Edit1], [], Deps({}, {}), map[c := Deps({}, {})]) ==
      Success(Deps({c}, {c}))
  {
    assert [Create][..0] == [];
    FoldBlocked(cfl, [Create], [Edit1], [], Deps({}, {}), map[Ident(Create) := Deps({}, {})]);
  }

  /** The graph of the first two patches. */
  lemma SampleGraph2(cfl: FLCommuter)
    requires Blocks(cfl)
    ensures var c, e1 := Ident(Create), Ident(Edit1);
      DepsGraph(cfl, [Create, Edit1]) == map[c := Deps({}, {}), e1 := Deps({c}, {c})]
  {
    SampleIdents();
    SampleGraph1(cfl);
    SampleFold2(cfl);
    var s2 := [Create, Edit1];
    assert s2[..1] == [Create] && s2[1] == Edit1;
  }

  /** The second edit depends directly on the first and, through it, on the
    * creation of the file, which is then skipped. */
  lemma SampleFold3(cfl: FLCommuter)
    requires Blocks(cfl)
    ensures var c, e1 := Ident(Create), Ident(Edit1);
      FoldDeps(cfl, [Create, Edit1], [Edit2], [], Deps({}, {}),
               map[c := Deps({}, {}), e1 := Deps({c}, {c})]) ==
      Success(Deps({e1}, {e1, c}))
  {
    var c, e1 := Ident(Create), Ident(Edit1);
    SampleIdents();
    var g2 := map[c := Deps({}, {}), e1 := Deps({c}, {c})];
    var s2 := [Create, Edit1];
    assert s2[..1] == [Create] && s2[1] == Edit1;
    FoldBlocked(cfl, s2, [Edit2], [], Deps({}, {}), g2);
    var acc := Deps({e1}, {e1, c});
    assert [Edit1] + [Edit2] == [Edit1, Edit2] && [Create][..0] == [];
    assert Deps({} + {e1}, {} + {e1} + g2[e1].direct + g2[e1].indirect) == acc;
    FoldKnown(cfl, [Create], [Edit1, Edit2], [], acc, g2);
    assert FoldDeps(cfl, [], [Create, Edit1, Edit2], [], acc, g2) == Success(acc);
  }

  /** The graph of the three patches, for any commuter that blocks. */
  lemma SampleGraph3(cfl: FLCommuter)
    requires Blocks(cfl)
    ensures var c, e1, e2 := Ident(Create), Ident(Edit1), Ident(Edit2);
      DepsGraph(cfl, [Create, Edit1, Edit2]) ==
      map[c := Deps({}, {}), e1 := Deps({c}, {c}), e2 := Deps({e1}, {e1, c})]
  {
    SampleIdents();
    SampleGraph2(cfl);
    SampleFold3(cfl);
    var s3 := [Create, Edit1, Edit2];
    assert s3[..2] == [Create, Edit1] && s3[2] == Edit2;
  }

  /** The graph of the sample history: the first edit depends on the
    * creation of the file, the second directly on the first edit and
    * through it on the creation. */
  lemma SampleGraph(tr: TokRewriter)
    ensures var c, e1, e2 := Ident(Create), Ident(Edit1), Ident(Edit2);
      DepsGraphOf(tr, [Create, Edit1, Edit2]) ==
      map[c := Deps({}, {}), e1 := Deps({c}, {c}), e2 := Deps({e1}, {e1, c})]
  {
    CreateBlocksEdit1(tr);
    Edit1BlocksEdit2(tr);
    SampleGraph3(FLCommuterOf(tr));
  }
}
