/** The dependency graph of darcs_patch.h. For every named patch of a
  * history, foldDeps walks back over the patches before it and sorts each
  * into those it can be commuted past and those it depends on: directly,
  * when the commute fails, or indirectly, through what those depend on.
  *
  * The lazy values of the source are evaluated eagerly: depsGraph forces
  * the whole chain before it returns. A lookup of a patch missing from the
  * graph throws in the source; here it is a Failure. */
module Deps {
  import opened Wrappers
  import opened Patches
  import opened Commute
  import opened SequenceCommute
  import Sequences

  /** Deps: the direct dependencies and the indirect ones. */
  datatype Deps = Deps(direct: set<PatchInfo>, indirect: set<PatchInfo>)

  /** DepsGraph: the dependencies of each identity. */
  type Graph = map<PatchInfo, Deps>

  /** The commuteFL the folder calls: commute one named patch past a list.
    * The properties of the graph proved below hold whatever it answers, so
    * the folder takes it as a parameter; DepsGraphOf supplies the real one. */
  type FLCommuter = (Named, seq<Named>) -> Option<(seq<Named>, Named)>

  /** The identities of a list of named patches. */
  function Idents(s: seq<Named>): (r: set<PatchInfo>)
    ensures forall i :: 0 <= i < |s| ==> Ident(s[i]) in r
  {
    set i | 0 <= i < |s| :: Ident(s[i])
  }

  /** The set of identities holds nothing but the identities of the list. */
  lemma IdentsOnly(s: seq<Named>, k: PatchInfo)
    requires k in Idents(s)
    ensures exists i :: 0 <= i < |s| && Ident(s[i]) == k
  {
  }

  /** allDeps: everything `j` depends on, or the throw of a lookup of a
    * missing key. */
  function AllDeps(j: PatchInfo, m: Graph): (r: Result<set<PatchInfo>>)
    ensures r.Success? <==> j in m
    ensures r.Failure? ==> r.error == Sequences.NOTHING_VALUE
    ensures r.Success? ==> forall k :: k in r.value <==> k in m[j].direct || k in m[j].indirect
  {
    match Sequences.ValueOf(Sequences.Lookup(m, j))
    case Failure(e) => Failure(e)
    case Success(sets) => Success(sets.direct + sets.indirect)
  }

  /** addDeps: the indirect set grown by `j` and everything `j` depends on. */
  function AddDeps(j: PatchInfo, indirect: set<PatchInfo>, m: Graph): (r: Result<set<PatchInfo>>)
    ensures r.Success? <==> j in m
    ensures r.Failure? ==> r.error == Sequences.NOTHING_VALUE
    ensures r.Success? ==> j in r.value && indirect <= r.value
    ensures r.Success? ==> forall k :: k in r.value <==> k == j || k in indirect || k in m[j].direct || k in m[j].indirect
  {
    match AllDeps(j, m)
    case Failure(e) => Failure(e)
    case Success(all) => Success((all + indirect) + {j})
  }

  /** Everything a set of direct dependencies brings with it: each
    * dependency, and what the graph says it depends on. */
  ghost function Closure(direct: set<PatchInfo>, m: Graph): set<PatchInfo>
  {
    set j, k | j in direct && j in m && k in {j} + m[j].direct + m[j].indirect :: k
  }

  /** foldDeps: `p` holds the patches still to sort, newest last;
    * `pAndDeps` the patch whose dependencies are computed, preceded by
    * those found to be its dependencies; `nonDeps` the patches commuted past
    * it. */
  function FoldDeps(cfl: FLCommuter, p: seq<Named>, pAndDeps: seq<Named>, nonDeps: seq<Named>, acc: Deps, m: Graph): (r: Result<Deps>)
    ensures Idents(p) <= m.Keys ==> r.Success?
    ensures r.Failure? ==> r.error == Sequences.NOTHING_VALUE
    ensures r.Success? ==> acc.direct <= r.value.direct && r.value.direct <= acc.direct + Idents(p)
    ensures r.Success? ==> r.value.direct - acc.direct <= m.Keys
    ensures r.Success? ==> acc.indirect <= r.value.indirect
    ensures r.Success? && acc.direct <= acc.indirect ==> r.value.direct <= r.value.indirect
    decreases |p|
  {
    if p == [] then Success(acc)
    else
      var q := p[|p| - 1];
      var qs := p[..|p| - 1];
      var j := Ident(q);
      assert Idents(qs) <= Idents(p) by {
        forall k | k in Idents(qs) ensures k in Idents(p) {
          var i :| 0 <= i < |qs| && Ident(qs[i]) == k;
          assert qs[i] == p[i];
        }
      }
      if j in acc.indirect then
        FoldDeps(cfl, qs, [q] + pAndDeps, nonDeps, acc, m)
      else
        match cfl(q, pAndDeps)
        case Some((pAndDeps1, q1)) => FoldDeps(cfl, qs, pAndDeps1, [q1] + nonDeps, acc, m)
        case None =>
          match AddDeps(j, acc.indirect, m)
          case Failure(e) => Failure(e)
          case Success(indirect) => FoldDeps(cfl, qs, [q] + pAndDeps, nonDeps, Deps(acc.direct + {j}, indirect), m)
  }

  /** The step of foldDeps for the newest remaining patch when it is already
    * among the indirect dependencies: it is passed over, joining the patch
    * and its dependencies, and the accumulator is kept. */
  lemma FoldKnown(cfl: FLCommuter, p: seq<Named>, pAndDeps: seq<Named>, nonDeps: seq<Named>, acc: Deps, m: Graph)
    requires p != [] && Ident(p[|p| - 1]) in acc.indirect
    ensures FoldDeps(cfl, p, pAndDeps, nonDeps, acc, m) == FoldDeps(cfl, p[..|p| - 1], [p[|p| - 1]] + pAndDeps, nonDeps, acc, m)
  {
  }

  /** The step of foldDeps for the newest remaining patch when it commutes
    * past the patch and its dependencies: the accumulator is kept, the
    * commuted list replaces them, and the commuted patch goes to the front of
    * the patches passed over. */
  lemma FoldCommutes(cfl: FLCommuter, p: seq<Named>, pAndDeps: seq<Named>, nonDeps: seq<Named>, acc: Deps, m: Graph)
    requires p != [] && Ident(p[|p| - 1]) !in acc.indirect
    requires cfl(p[|p| - 1], pAndDeps).Some?
    ensures var (pAndDeps1, q1) := cfl(p[|p| - 1], pAndDeps).value;
      FoldDeps(cfl, p, pAndDeps, nonDeps, acc, m) == FoldDeps(cfl, p[..|p| - 1], pAndDeps1, [q1] + nonDeps, acc, m)
  {
  }

  /** The step of foldDeps for the newest remaining patch when it does not
    * commute past the patch and its dependencies: it joins them and becomes
    * a direct dependency, and it and its own dependencies indirect ones. */
  lemma FoldBlocked(cfl: FLCommuter, p: seq<Named>, pAndDeps: seq<Named>, nonDeps: seq<Named>, acc: Deps, m: Graph)
    requires p != []
    requires Ident(p[|p| - 1]) !in acc.indirect && Ident(p[|p| - 1]) in m
    requires cfl(p[|p| - 1], pAndDeps).None?
    ensures var q := p[|p| - 1];
      var j := Ident(q);
      FoldDeps(cfl, p, pAndDeps, nonDeps, acc, m) ==
      FoldDeps(cfl, p[..|p| - 1], [q] + pAndDeps, nonDeps, Deps(acc.direct + {j}, acc.indirect + {j} + m[j].direct + m[j].indirect), m)
  {
    var j := Ident(p[|p| - 1]);
    var indirect := AddDeps(j, acc.indirect, m).value;
    assert indirect == acc.indirect + {j} + m[j].direct + m[j].indirect;
  }

  /** Adding one direct dependency grows the closure by that dependency and
    * what it depends on. */
  lemma ClosureAdd(direct: set<PatchInfo>, j: PatchInfo, m: Graph)
    requires j in m
    ensures Closure(direct + {j}, m) == Closure(direct, m) + {j} + m[j].direct + m[j].indirect
  {
    var left := Closure(direct + {j}, m);
    var right := Closure(direct, m) + {j} + m[j].direct + m[j].indirect;
    forall k | k in right ensures k in left {
      if k !in Closure(direct, m) {
        assert j in direct + {j} && k in {j} + m[j].direct + m[j].indirect;
      }
    }
  }

  /** The indirect set of foldDeps is always the closure of its direct set. */
  lemma {:induction false} FoldDepsClosure(cfl: FLCommuter, p: seq<Named>, pAndDeps: seq<Named>, nonDeps: seq<Named>, acc: Deps, m: Graph)
    requires acc.indirect == Closure(acc.direct, m)
    requires FoldDeps(cfl, p, pAndDeps, nonDeps, acc, m).Success?
    ensures var r := FoldDeps(cfl, p, pAndDeps, nonDeps, acc, m).value;
      r.indirect == Closure(r.direct, m)
    decreases |p|
  {
    if p != [] {
      var q := p[|p| - 1];
      var qs := p[..|p| - 1];
      var j := Ident(q);
      if j in acc.indirect {
        FoldDepsClosure(cfl, qs, [q] + pAndDeps, nonDeps, acc, m);
      } else {
        match cfl(q, pAndDeps)
        case Some((pAndDeps1, q1)) =>
          FoldDepsClosure(cfl, qs, pAndDeps1, [q1] + nonDeps, acc, m);
        case None =>
          var indirect := AddDeps(j, acc.indirect, m).value;
          ClosureAdd(acc.direct, j, m);
          assert indirect == Closure(acc.direct + {j}, m);
          FoldDepsClosure(cfl, qs, [q] + pAndDeps, nonDeps, Deps(acc.direct + {j}, indirect), m);
      }
    }
  }

  /** The identities of a list are those of all but its last patch, and the
    * last one's. */
  lemma IdentsLast(s: seq<Named>)
    requires s != []
    ensures Idents(s) == Idents(s[..|s| - 1]) + {Ident(s[|s| - 1])}
  {
    var ps := s[..|s| - 1];
    forall k | k in Idents(s) ensures k in Idents(ps) + {Ident(s[|s| - 1])} {
      var i :| 0 <= i < |s| && Ident(s[i]) == k;
      if i < |ps| {
        assert s[i] == ps[i];
      }
    }
    forall k | k in Idents(ps) ensures k in Idents(s) {
      var i :| 0 <= i < |ps| && Ident(ps[i]) == k;
      assert s[i] == ps[i];
    }
  }

  /** depsGraph_lazy / depsGraph: the graph of all but the newest patch,
    * with the newest patch's dependencies among the earlier ones added
    * under its identity, unless that identity is already a key. */
  function DepsGraph(cfl: FLCommuter, s: seq<Named>): (g: Graph)
    ensures g.Keys == Idents(s)
    decreases |s|
  {
    if s == [] then map[]
    else
      var p := s[|s| - 1];
      var ps := s[..|s| - 1];
      var m := DepsGraph(cfl, ps);
      var folded := FoldDeps(cfl, ps, [p], [], Deps({}, {}), m);
      IdentsLast(s);
      Sequences.MapInsert(m, Ident(p), folded.value)
  }

  /** Each entry's direct dependencies are keys and among its indirect ones. */
  ghost predicate DirectAreKeys(g: Graph)
  {
    forall k :: k in g ==> g[k].direct <= g.Keys && g[k].direct <= g[k].indirect
  }

  /** Each entry's indirect dependencies are the closure of its direct ones. */
  ghost predicate IndirectIsClosure(g: Graph)
  {
    forall k :: k in g ==> g[k].indirect == Closure(g[k].direct, g)
  }

  /** Depending is transitive. */
  ghost predicate Transitive(g: Graph)
  {
    forall k, j :: k in g && j in g[k].indirect ==> j in g && g[j].indirect <= g[k].indirect
  }

  /** The properties every graph depsGraph computes has. */
  ghost predicate WellFormed(g: Graph)
  {
    DirectAreKeys(g) && IndirectIsClosure(g) && Transitive(g)
  }

  /** Closures only read the entries of their direct dependencies. */
  lemma ClosureOfSubgraph(direct: set<PatchInfo>, m: Graph, g: Graph)
    requires direct <= m.Keys
    requires forall k :: k in m ==> k in g && g[k] == m[k]
    ensures Closure(direct, g) == Closure(direct, m)
  {
  }

  /** In a well-formed graph, the closure of keys holds only keys. */
  lemma ClosureInKeys(direct: set<PatchInfo>, m: Graph)
    requires DirectAreKeys(m) && Transitive(m)
    ensures Closure(direct, m) <= m.Keys
  {
    forall j | j in Closure(direct, m) ensures j in m {
      var d :| d in direct && d in m && j in {d} + m[d].direct + m[d].indirect;
    }
  }

  /** The closure of a set of keys depends on nothing outside it: what each
    * member depends on is in it too. */
  lemma ClosureTransitive(direct: set<PatchInfo>, m: Graph, j: PatchInfo)
    requires DirectAreKeys(m) && Transitive(m)
    requires j in Closure(direct, m)
    ensures j in m && m[j].indirect <= Closure(direct, m)
  {
    var d :| d in direct && d in m && j in {d} + m[d].direct + m[d].indirect;
    assert m[d].indirect <= Closure(direct, m) by {
      forall k | k in m[d].indirect ensures k in Closure(direct, m) {
        assert k in {d} + m[d].direct + m[d].indirect;
      }
    }
  }

  /** Adding an entry whose direct dependencies are keys, and among its
    * indirect ones, keeps every direct dependency a key. */
  lemma AddEntryDirect(m: Graph, key: PatchInfo, e: Deps, g: Graph)
    requires DirectAreKeys(m)
    requires e.direct <= m.Keys && e.direct <= e.indirect
    requires g.Keys == m.Keys + {key} && g[key] == e
    requires forall k :: k in m ==> g[k] == m[k]
    ensures DirectAreKeys(g)
  {
  }

  /** Adding an entry whose indirect dependencies are the closure of its
    * direct ones leaves every closure as it was. */
  lemma AddEntryClosure(m: Graph, key: PatchInfo, e: Deps, g: Graph)
    requires DirectAreKeys(m) && IndirectIsClosure(m)
    requires e.direct <= m.Keys && e.indirect == Closure(e.direct, m)
    requires g.Keys == m.Keys + {key} && g[key] == e
    requires forall k :: k in m ==> g[k] == m[k]
    ensures IndirectIsClosure(g)
  {
    forall k | k in g ensures g[k].indirect == Closure(g[k].direct, g) {
      ClosureOfSubgraph(g[k].direct, m, g);
    }
  }

  /** Adding a new entry whose indirect dependencies are a closure keeps
    * depending transitive. */
  lemma AddEntryTransitive(m: Graph, key: PatchInfo, e: Deps, g: Graph)
    requires DirectAreKeys(m) && Transitive(m) && key !in m
    requires e.indirect == Closure(e.direct, m)
    requires g.Keys == m.Keys + {key} && g[key] == e
    requires forall k :: k in m ==> g[k] == m[k]
    ensures Transitive(g)
  {
    forall k, j | k in g && j in g[k].indirect
      ensures j in g && g[j].indirect <= g[k].indirect
    {
      if k == key {
        ClosureTransitive(e.direct, m, j);
      }
    }
  }

  /** depsGraph always computes a well-formed graph. */
  lemma {:induction false} DepsGraphWellFormed(cfl: FLCommuter, s: seq<Named>)
    ensures WellFormed(DepsGraph(cfl, s))
    decreases |s|
  {
    if s != [] {
      var p := s[|s| - 1];
      var ps := s[..|s| - 1];
      var m := DepsGraph(cfl, ps);
      DepsGraphWellFormed(cfl, ps);
      var folded := FoldDeps(cfl, ps, [p], [], Deps({}, {}), m).value;
      var g := DepsGraph(cfl, s);
      assert g == Sequences.MapInsert(m, Ident(p), folded);
      if Ident(p) !in m {
        assert Closure({}, m) == {};
        FoldDepsClosure(cfl, ps, [p], [], Deps({}, {}), m);
        AddEntryDirect(m, Ident(p), folded, g);
        AddEntryClosure(m, Ident(p), folded, g);
        AddEntryTransitive(m, Ident(p), folded, g);
      } else {
        assert g == m;
      }
    }
  }

  /** Entries are never revised: the graph of a history holds the graph of
    * each of its prefixes unchanged. */
  lemma {:induction false} DepsGraphExtends(cfl: FLCommuter, s: seq<Named>, n: nat)
    requires n <= |s|
    ensures var g := DepsGraph(cfl, s);
      var h := DepsGraph(cfl, s[..n]);
      forall k :: k in h ==> k in g && g[k] == h[k]
    decreases |s|
  {
    if n < |s| {
      var ps := s[..|s| - 1];
      assert ps[..n] == s[..n];
      DepsGraphExtends(cfl, ps, n);
    } else {
      assert s[..n] == s;
    }
  }

  /** The position of the first patch of `s` with identity `k`. */
  ghost function FirstOccurrence(s: seq<Named>, k: PatchInfo): (i: nat)
    requires k in Idents(s)
    ensures i < |s| && Ident(s[i]) == k && k !in Idents(s[..i])
    decreases |s|
  {
    var ps := s[..|s| - 1];
    IdentsLast(s);
    if k in Idents(ps) then
      var i := FirstOccurrence(ps, k);
      assert ps[..i] == s[..i];
      i
    else
      |s| - 1
  }

  /** The closure in a computed graph holds only its keys. */
  lemma DepsGraphClosureInKeys(cfl: FLCommuter, s: seq<Named>, direct: set<PatchInfo>)
    ensures Closure(direct, DepsGraph(cfl, s)) <= Idents(s)
  {
    DepsGraphWellFormed(cfl, s);
    ClosureInKeys(direct, DepsGraph(cfl, s));
  }

  /** The entry foldDeps computes for a patch `p` over the graph of the
    * patches `ps` before it names only those patches. */
  lemma FoldedEntry(cfl: FLCommuter, ps: seq<Named>, p: Named)
    ensures var m := DepsGraph(cfl, ps);
      var r := FoldDeps(cfl, ps, [p], [], Deps({}, {}), m);
      r.Success? && r.value.direct <= r.value.indirect <= Idents(ps)
  {
    var m := DepsGraph(cfl, ps);
    var folded := FoldDeps(cfl, ps, [p], [], Deps({}, {}), m).value;
    assert Closure({}, m) == {};
    FoldDepsClosure(cfl, ps, [p], [], Deps({}, {}), m);
    DepsGraphClosureInKeys(cfl, ps, folded.direct);
  }

  /** A patch whose identity is new gets an entry naming only the patches
    * before it. */
  lemma DepsGraphNewEntry(cfl: FLCommuter, ps: seq<Named>, p: Named)
    requires Ident(p) !in Idents(ps)
    ensures var g := DepsGraph(cfl, ps + [p]);
      Ident(p) in g && g[Ident(p)].direct <= g[Ident(p)].indirect <= Idents(ps)
  {
    var s := ps + [p];
    assert s[..|s| - 1] == ps && s[|s| - 1] == p;
    FoldedEntry(cfl, ps, p);
  }

  /** The entry of a patch, computed where its identity first occurs,
    * names only patches before it. */
  lemma {:induction false} DepsGraphEarlier(cfl: FLCommuter, s: seq<Named>, i: nat)
    requires i < |s| && Ident(s[i]) !in Idents(s[..i])
    ensures var g := DepsGraph(cfl, s);
      Ident(s[i]) in g && g[Ident(s[i])].direct <= g[Ident(s[i])].indirect <= Idents(s[..i])
    decreases |s|
  {
    var p := s[|s| - 1];
    var ps := s[..|s| - 1];
    var m := DepsGraph(cfl, ps);
    var g := DepsGraph(cfl, s);
    if i < |s| - 1 {
      assert ps[i] == s[i] && ps[..i] == s[..i];
      DepsGraphEarlier(cfl, ps, i);
      DepsGraphExtends(cfl, s, |s| - 1);
    } else {
      assert ps == s[..i] && s == ps + [p];
      DepsGraphNewEntry(cfl, ps, p);
    }
  }

  /** No patch depends on itself, directly or indirectly. */
  lemma NoSelfDependency(cfl: FLCommuter, s: seq<Named>, k: PatchInfo)
    requires k in DepsGraph(cfl, s)
    ensures k !in DepsGraph(cfl, s)[k].direct && k !in DepsGraph(cfl, s)[k].indirect
  {
    var i := FirstOccurrence(s, k);
    DepsGraphEarlier(cfl, s, i);
  }

  /** commuteFL over named patches, as the folder calls it. */
  function FLCommuterOf(tr: TokRewriter): (cfl: FLCommuter)
    ensures forall q, ys :: cfl(q, ys) == CommuteFL(tr, q, ys)
  {
    (q, ys) => CommuteFL(tr, q, ys)
  }

  /** depsGraph over the commutation of named patches: a key for every
    * identity, a well-formed graph, and no patch depending on itself. */
  function DepsGraphOf(tr: TokRewriter, s: seq<Named>): (g: Graph)
    ensures g.Keys == Idents(s)
    ensures WellFormed(g)
    ensures forall k :: k in g ==> k !in g[k].indirect && k !in g[k].direct
  {
    var cfl := FLCommuterOf(tr);
    DepsGraphWellFormed(cfl, s);
    forall k | k in DepsGraph(cfl, s)
      ensures k !in DepsGraph(cfl, s)[k].indirect && k !in DepsGraph(cfl, s)[k].direct
    {
      NoSelfDependency(cfl, s, k);
    }
    DepsGraph(cfl, s)
  }
}
