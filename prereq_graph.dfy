/** The prerequisite dependency graph (`PrereqGraph`): a map from each
    prerequisite code to the codes of the modules that depend on it. */
module DependencyGraph {
  import opened Modules

  /** Prerequisite code to dependent module codes. */
  type Adjacency = map<string, seq<string>>

  /** The list under `p`, or the empty list `computeIfAbsent` would create. */
  function Get(g: Adjacency, p: string): seq<string> {
    if p in g then g[p] else []
  }

  /** `n` copies of `code`. */
  function Copies(code: string, n: nat): (r: seq<string>)
    ensures |r| == n && forall i :: 0 <= i < n ==> r[i] == code
  {
    seq(n, _ => code)
  }

  lemma CopiesAdd(code: string, a: nat, b: nat)
    ensures Copies(code, a) + Copies(code, b) == Copies(code, a + b)
  {
    assert forall i :: 0 <= i < a + b ==> (Copies(code, a) + Copies(code, b))[i] == code;
  }

  /** A module's prerequisite codes, group after group. */
  function Flatten(groups: PrereqGroups): seq<string> {
    if groups == [] then [] else Flatten(groups[..|groups| - 1]) + groups[|groups| - 1]
  }

  /** The codes of the modules. */
  function Codes(ms: seq<Module>): set<string> {
    set i | 0 <= i < |ms| :: ms[i].code
  }

  /** Every code in any group of any module. */
  function PrereqCodes(ms: seq<Module>): set<string> {
    set i, p | 0 <= i < |ms| && p in Flatten(ms[i].prerequisites) :: p
  }

  /** The number of prerequisite code occurrences over all modules. */
  function TotalPrereqs(ms: seq<Module>): nat {
    if ms == [] then 0 else TotalPrereqs(ms[..|ms| - 1]) + |Flatten(ms[|ms| - 1].prerequisites)|
  }

  /** The dependents of `p` by definition: in module order, each module's code
      once for every occurrence of `p` in its groups. */
  function Dependents(ms: seq<Module>, p: string): seq<string> {
    if ms == [] then []
    else
      var m := ms[|ms| - 1];
      Dependents(ms[..|ms| - 1], p) + Copies(m.code, multiset(Flatten(m.prerequisites))[p])
  }

  // ---------------------------------------------------------------------------
  // The two passes of `buildGraph`, one step at a time

  /** The first pass: `putIfAbsent(code, [])` for each module in order. */
  function SeedKeys(g: Adjacency, ms: seq<Module>): Adjacency {
    if ms == [] then g
    else
      var r0 := SeedKeys(g, ms[..|ms| - 1]);
      var code := ms[|ms| - 1].code;
      if code in r0 then r0 else r0[code := []]
  }

  /** `computeIfAbsent(p, ...).add(code)` for each `p` of `codes` in order. */
  function AddCodes(g: Adjacency, code: string, codes: seq<string>): Adjacency {
    if codes == [] then g
    else
      var r0 := AddCodes(g, code, codes[..|codes| - 1]);
      var p := codes[|codes| - 1];
      r0[p := Get(r0, p) + [code]]
  }

  /** The edges of one module: its groups in order. */
  function AddGroups(g: Adjacency, code: string, groups: PrereqGroups): Adjacency {
    if groups == [] then g
    else AddCodes(AddGroups(g, code, groups[..|groups| - 1]), code, groups[|groups| - 1])
  }

  /** The second pass: every module's edges, in module order. */
  function AddModules(g: Adjacency, ms: seq<Module>): Adjacency {
    if ms == [] then g
    else
      var m := ms[|ms| - 1];
      AddGroups(AddModules(g, ms[..|ms| - 1]), m.code, m.prerequisites)
  }

  /** The graph `buildGraph` leaves in a fresh `PrereqGraph`. */
  function Graph(ms: seq<Module>): Adjacency {
    AddModules(SeedKeys(map[], ms), ms)
  }

  /** The codes of a list, as a set. */
  function Members(codes: seq<string>): set<string> {
    set p | p in codes
  }

  /** Seeding adds the module codes as keys and changes no list. */
  lemma {:induction false} SeedKeysShape(g: Adjacency, ms: seq<Module>)
    ensures SeedKeys(g, ms).Keys == g.Keys + Codes(ms)
    ensures forall p :: Get(SeedKeys(g, ms), p) == Get(g, p)
    decreases |ms|
  {
    if ms != [] {
      var front := ms[..|ms| - 1];
      SeedKeysShape(g, front);
      assert Codes(ms) == Codes(front) + {ms[|ms| - 1].code} by {
        forall c | c in Codes(ms) ensures c in Codes(front) + {ms[|ms| - 1].code} {
          var i :| 0 <= i < |ms| && ms[i].code == c;
          if i < |front| {
            assert front[i] == ms[i];
          }
        }
        forall c | c in Codes(front) ensures c in Codes(ms) {
          var i :| 0 <= i < |front| && front[i].code == c;
          assert ms[i] == front[i];
        }
      }
    }
  }

  /** Appending a code under each of `codes` adds exactly those keys. */
  lemma {:induction false} AddCodesKeys(g: Adjacency, code: string, codes: seq<string>)
    ensures AddCodes(g, code, codes).Keys == g.Keys + Members(codes)
    decreases |codes|
  {
    if codes != [] {
      var front := codes[..|codes| - 1];
      AddCodesKeys(g, code, front);
      assert codes == front + [codes[|codes| - 1]];
      assert Members(codes) == Members(front) + {codes[|codes| - 1]};
    }
  }

  /** Under each key, the code is appended once per occurrence of the key. */
  lemma {:induction false} AddCodesAt(g: Adjacency, code: string, codes: seq<string>, p: string)
    ensures Get(AddCodes(g, code, codes), p) == Get(g, p) + Copies(code, multiset(codes)[p])
    decreases |codes|
  {
    if codes != [] {
      var front := codes[..|codes| - 1];
      var q := codes[|codes| - 1];
      AddCodesAt(g, code, front, p);
      assert codes == front + [q];
      assert multiset(codes)[p] == multiset(front)[p] + (if p == q then 1 else 0);
      CopiesAdd(code, multiset(front)[p], if p == q then 1 else 0);
    }
  }

  lemma {:induction false} AddGroupsKeys(g: Adjacency, code: string, groups: PrereqGroups)
    ensures AddGroups(g, code, groups).Keys == g.Keys + Members(Flatten(groups))
    decreases |groups|
  {
    if groups != [] {
      var front := groups[..|groups| - 1];
      var last := groups[|groups| - 1];
      AddGroupsKeys(g, code, front);
      AddCodesKeys(AddGroups(g, code, front), code, last);
      assert Members(Flatten(groups)) == Members(Flatten(front)) + Members(last);
    }
  }

  lemma {:induction false} AddGroupsAt(g: Adjacency, code: string, groups: PrereqGroups, p: string)
    ensures Get(AddGroups(g, code, groups), p) == Get(g, p) + Copies(code, multiset(Flatten(groups))[p])
    decreases |groups|
  {
    if groups != [] {
      var front := groups[..|groups| - 1];
      var last := groups[|groups| - 1];
      AddGroupsAt(g, code, front, p);
      AddCodesAt(AddGroups(g, code, front), code, last, p);
      CopiesAdd(code, multiset(Flatten(front))[p], multiset(last)[p]);
    }
  }

  lemma PrereqCodesSnoc(ms: seq<Module>)
    requires ms != []
    ensures PrereqCodes(ms) == PrereqCodes(ms[..|ms| - 1]) + Members(Flatten(ms[|ms| - 1].prerequisites))
  {
    var front := ms[..|ms| - 1];
    forall p | p in PrereqCodes(ms)
      ensures p in PrereqCodes(front) + Members(Flatten(ms[|ms| - 1].prerequisites))
    {
      var i :| 0 <= i < |ms| && p in Flatten(ms[i].prerequisites);
      if i < |front| {
        assert ms[i] == front[i];
      }
    }
    forall p | p in PrereqCodes(front) ensures p in PrereqCodes(ms) {
      var i :| 0 <= i < |front| && p in Flatten(front[i].prerequisites);
      assert ms[i] == front[i];
    }
  }

  lemma {:induction false} AddModulesKeys(g: Adjacency, ms: seq<Module>)
    ensures AddModules(g, ms).Keys == g.Keys + PrereqCodes(ms)
    decreases |ms|
  {
    if ms != [] {
      var front := ms[..|ms| - 1];
      var m := ms[|ms| - 1];
      AddModulesKeys(g, front);
      AddGroupsKeys(AddModules(g, front), m.code, m.prerequisites);
      PrereqCodesSnoc(ms);
    }
  }

  lemma {:induction false} AddModulesAt(g: Adjacency, ms: seq<Module>, p: string)
    ensures Get(AddModules(g, ms), p) == Get(g, p) + Dependents(ms, p)
    decreases |ms|
  {
    if ms != [] {
      var front := ms[..|ms| - 1];
      var m := ms[|ms| - 1];
      AddModulesAt(g, front, p);
      AddGroupsAt(AddModules(g, front), m.code, m.prerequisites, p);
    }
  }

  /** The built graph: its keys are the module codes and the prerequisite
      codes and nothing else; the list under each key is that key's
      dependents in module order, duplicates kept. */
  lemma GraphShape(ms: seq<Module>)
    ensures Graph(ms).Keys == Codes(ms) + PrereqCodes(ms)
    ensures forall p :: Get(Graph(ms), p) == Dependents(ms, p)
  {
    SeedKeysShape(map[], ms);
    AddModulesKeys(SeedKeys(map[], ms), ms);
    forall p ensures Get(Graph(ms), p) == Dependents(ms, p) {
      AddModulesAt(SeedKeys(map[], ms), ms, p);
    }
  }

  // ---------------------------------------------------------------------------
  // The class

  class PrereqGraph {
    var modules: seq<Module>
    var graph: Adjacency

    /** The graph is the one built from the modules. */
    predicate Valid()
      reads this
    {
      graph == Graph(modules)
    }

    /** Keeps the module list and builds the graph into the empty map. */
    constructor (modules: seq<Module>)
      ensures this.modules == modules
      ensures Valid()
    {
      this.modules := modules;
      graph := map[];
      new;
      BuildGraph();
    }

    /** `buildGraph`: seeds every module code as a key, then appends the
        module's code to the list of each prerequisite code it names. A
        module's prerequisites are never null here, so no module is skipped. */
    method BuildGraph()
      modifies this`graph
      ensures graph == AddModules(SeedKeys(old(graph), modules), modules)
    {
      var i := 0;
      while i < |modules|
        invariant 0 <= i <= |modules|
        invariant graph == SeedKeys(old(graph), modules[..i])
      {
        assert modules[..i + 1][..i] == modules[..i];
        var code := modules[i].code;
        if code !in graph {
          graph := graph[code := []];
        }
        i := i + 1;
      }
      assert modules[..|modules|] == modules;
      ghost var seeded := graph;
      i := 0;
      while i < |modules|
        invariant 0 <= i <= |modules|
        invariant graph == AddModules(seeded, modules[..i])
      {
        assert modules[..i + 1][..i] == modules[..i];
        ghost var moduleBase := graph;
        var m := modules[i];
        var combos := m.prerequisites;
        var j := 0;
        while j < |combos|
          invariant 0 <= j <= |combos|
          invariant graph == AddGroups(moduleBase, m.code, combos[..j])
        {
          assert combos[..j + 1][..j] == combos[..j];
          ghost var groupBase := graph;
          var combo := combos[j];
          var k := 0;
          while k < |combo|
            invariant 0 <= k <= |combo|
            invariant graph == AddCodes(groupBase, m.code, combo[..k])
          {
            assert combo[..k + 1][..k] == combo[..k];
            var prereq := combo[k];
            graph := graph[prereq := (if prereq in graph then graph[prereq] else []) + [m.code]];
            k := k + 1;
          }
          assert combo[..k] == combo;
          j := j + 1;
        }
        assert combos[..j] == combos;
        i := i + 1;
      }
      assert modules[..|modules|] == modules;
    }

    /** `getGraph`: the adjacency map, with every module code and every
        prerequisite code as a key and each key's dependents in order. */
    method GetGraph() returns (g: Adjacency)
      requires Valid()
      ensures g == graph
      ensures g.Keys == Codes(modules) + PrereqCodes(modules)
      ensures forall p :: Get(g, p) == Dependents(modules, p)
    {
      g := graph;
      GraphShape(modules);
    }
  }

  // ---------------------------------------------------------------------------
  // What the dependents lists hold

  /** The dependents of a run of modules are those of its first part followed
      by those of its second: lists follow module order. */
  lemma {:induction false} DependentsAppend(ms1: seq<Module>, ms2: seq<Module>, p: string)
    ensures Dependents(ms1 + ms2, p) == Dependents(ms1, p) + Dependents(ms2, p)
    decreases |ms2|
  {
    if ms2 == [] {
      assert ms1 + ms2 == ms1;
    } else {
      var front := ms2[..|ms2| - 1];
      assert (ms1 + ms2)[..|ms1 + ms2| - 1] == ms1 + front;
      DependentsAppend(ms1, front, p);
    }
  }

  /** Soundness: every code listed under `p` is the code of a module whose
      groups name `p`. */
  lemma {:induction false} DependentsSound(ms: seq<Module>, p: string, d: string)
    requires d in Dependents(ms, p)
    ensures exists i :: 0 <= i < |ms| && ms[i].code == d && p in Flatten(ms[i].prerequisites)
    decreases |ms|
  {
    var front := ms[..|ms| - 1];
    var m := ms[|ms| - 1];
    if d in Dependents(front, p) {
      DependentsSound(front, p, d);
      var i :| 0 <= i < |front| && front[i].code == d && p in Flatten(front[i].prerequisites);
      assert ms[i] == front[i];
    } else {
      assert d in Copies(m.code, multiset(Flatten(m.prerequisites))[p]);
      assert ms[|ms| - 1].code == d && p in Flatten(ms[|ms| - 1].prerequisites);
    }
  }

  /** Completeness: a module whose groups name `p` is listed under `p`. */
  lemma {:induction false} DependentsComplete(ms: seq<Module>, p: string, i: nat)
    requires i < |ms| && p in Flatten(ms[i].prerequisites)
    ensures ms[i].code in Dependents(ms, p)
    decreases |ms|
  {
    var front := ms[..|ms| - 1];
    var m := ms[|ms| - 1];
    if i < |front| {
      assert ms[i] == front[i];
      DependentsComplete(front, p, i);
    } else {
      var n := multiset(Flatten(m.prerequisites))[p];
      assert n > 0;
      assert Copies(m.code, n)[0] == m.code;
    }
  }

  /** A code no module names as a prerequisite has no dependents. */
  lemma {:induction false} DependentsOfUnnamed(ms: seq<Module>, p: string)
    requires p !in PrereqCodes(ms)
    ensures Dependents(ms, p) == []
    decreases |ms|
  {
    if ms != [] {
      var front := ms[..|ms| - 1];
      var m := ms[|ms| - 1];
      PrereqCodesSnoc(ms);
      DependentsOfUnnamed(front, p);
      assert p !in Members(Flatten(m.prerequisites));
      assert multiset(Flatten(m.prerequisites))[p] == 0;
    }
  }

  /** A module code that is no module's prerequisite is a key with an empty
      list. */
  lemma ModuleWithoutDependents(ms: seq<Module>, p: string)
    requires p in Codes(ms) && p !in PrereqCodes(ms)
    ensures p in Graph(ms) && Graph(ms)[p] == []
  {
    GraphShape(ms);
    DependentsOfUnnamed(ms, p);
  }

  /** A module whose groups name no code adds no edge. */
  lemma {:induction false} NoGroupsNoEdges(g: Adjacency, code: string, groups: PrereqGroups)
    requires Flatten(groups) == []
    ensures AddGroups(g, code, groups) == g
    decreases |groups|
  {
    if groups != [] {
      var front := groups[..|groups| - 1];
      assert Flatten(front) == [] && groups[|groups| - 1] == [] by {
        assert Flatten(groups) == Flatten(front) + groups[|groups| - 1];
      }
      NoGroupsNoEdges(g, code, front);
    }
  }

  lemma ModuleWithoutPrereqsAddsNothing(g: Adjacency, ms: seq<Module>, m: Module)
    requires Flatten(m.prerequisites) == []
    ensures AddModules(g, ms + [m]) == AddModules(g, ms)
  {
    assert (ms + [m])[..|ms|] == ms;
    NoGroupsNoEdges(AddModules(g, ms), m.code, m.prerequisites);
  }

  // ---------------------------------------------------------------------------
  // Edge count

  ghost function PickKey(g: Adjacency): string
    requires g != map[]
  {
    var k :| k in g; k
  }

  /** The total length of all dependents lists. */
  ghost function EdgeCount(g: Adjacency): nat
    decreases |g|
  {
    if g == map[] then 0
    else
      var k := PickKey(g);
      assert |g - {k}| < |g| by {
        assert (g - {k}).Keys == g.Keys - {k};
      }
      |g[k]| + EdgeCount(g - {k})
  }

  lemma {:induction false} EdgeCountRemove(g: Adjacency, x: string)
    requires x in g
    ensures EdgeCount(g) == |g[x]| + EdgeCount(g - {x})
    decreases |g|
  {
    var k := PickKey(g);
    if k != x {
      assert (g - {k}).Keys == g.Keys - {k};
      assert (g - {x}).Keys == g.Keys - {x};
      EdgeCountRemove(g - {k}, x);
      EdgeCountRemove(g - {x}, k);
      assert g - {k} - {x} == g - {x} - {k};
    }
  }

  lemma EdgeCountUpdate(g: Adjacency, p: string, v: seq<string>)
    ensures EdgeCount(g[p := v]) == EdgeCount(g) - |Get(g, p)| + |v|
  {
    EdgeCountRemove(g[p := v], p);
    if p in g {
      EdgeCountRemove(g, p);
      assert g[p := v] - {p} == g - {p};
    } else {
      assert g[p := v] - {p} == g;
    }
  }

  lemma {:induction false} EdgeCountSeed(g: Adjacency, ms: seq<Module>)
    ensures EdgeCount(SeedKeys(g, ms)) == EdgeCount(g)
    decreases |ms|
  {
    if ms != [] {
      var r0 := SeedKeys(g, ms[..|ms| - 1]);
      EdgeCountSeed(g, ms[..|ms| - 1]);
      EdgeCountUpdate(r0, ms[|ms| - 1].code, []);
    }
  }

  lemma {:induction false} EdgeCountAddCodes(g: Adjacency, code: string, codes: seq<string>)
    ensures EdgeCount(AddCodes(g, code, codes)) == EdgeCount(g) + |codes|
    decreases |codes|
  {
    if codes != [] {
      var front := codes[..|codes| - 1];
      var r0 := AddCodes(g, code, front);
      EdgeCountAddCodes(g, code, front);
      EdgeCountUpdate(r0, codes[|codes| - 1], Get(r0, codes[|codes| - 1]) + [code]);
    }
  }

  lemma {:induction false} EdgeCountAddGroups(g: Adjacency, code: string, groups: PrereqGroups)
    ensures EdgeCount(AddGroups(g, code, groups)) == EdgeCount(g) + |Flatten(groups)|
    decreases |groups|
  {
    if groups != [] {
      var front := groups[..|groups| - 1];
      EdgeCountAddGroups(g, code, front);
      EdgeCountAddCodes(AddGroups(g, code, front), code, groups[|groups| - 1]);
    }
  }

  lemma {:induction false} EdgeCountAddModules(g: Adjacency, ms: seq<Module>)
    ensures EdgeCount(AddModules(g, ms)) == EdgeCount(g) + TotalPrereqs(ms)
    decreases |ms|
  {
    if ms != [] {
      var front := ms[..|ms| - 1];
      var m := ms[|ms| - 1];
      EdgeCountAddModules(g, front);
      EdgeCountAddGroups(AddModules(g, front), m.code, m.prerequisites);
    }
  }

  /** The lists of the built graph hold one entry per prerequisite code
      occurrence, over all modules. */
  lemma GraphEdgeCount(ms: seq<Module>)
    ensures EdgeCount(Graph(ms)) == TotalPrereqs(ms)
  {
    EdgeCountSeed(map[], ms);
    EdgeCountAddModules(SeedKeys(map[], ms), ms);
  }

  lemma DependentsSnoc(ms: seq<Module>, m: Module, p: string)
    ensures Dependents(ms + [m], p) == Dependents(ms, p) + Copies(m.code, multiset(Flatten(m.prerequisites))[p])
  {
    assert (ms + [m])[..|ms|] == ms;
  }

  /** A catalogue of A (no prerequisite), B (needs A) and C (needs both A
      and D, where D is not in the catalogue). */
  const ExampleA := Module("A", "Alpha", 4, "core", [])
  const ExampleB := Module("B", "Beta", 4, "core", [["A"]])
  const ExampleC := Module("C", "Gamma", 4, "core", [["A", "D"]])

  lemma ExampleFacts()
    ensures Flatten(ExampleA.prerequisites) == []
    ensures Flatten(ExampleB.prerequisites) == ["A"]
    ensures Flatten(ExampleC.prerequisites) == ["A", "D"]
    ensures multiset(["A"]) == multiset{"A"} && multiset(["A", "D"]) == multiset{"A", "D"}
    ensures "A" != "D" && "A" != "B" && "A" != "C" && "D" != "B" && "D" != "C"
  {
    assert ExampleB.prerequisites[..0] == [] && ExampleC.prerequisites[..0] == [];
    assert "A"[0] != "D"[0] && "A"[0] != "B"[0] && "A"[0] != "C"[0];
    assert "D"[0] != "B"[0] && "D"[0] != "C"[0];
  }

  lemma ExampleCodes()
    ensures Codes([ExampleA, ExampleB, ExampleC]) == {"A", "B", "C"}
  {
    var ms := [ExampleA, ExampleB, ExampleC];
    assert ms[0].code == "A" && ms[1].code == "B" && ms[2].code == "C";
  }

  lemma ExamplePrereqCodes()
    ensures PrereqCodes([ExampleA, ExampleB, ExampleC]) == {"A", "D"}
  {
    ExampleFacts();
    var ms := [ExampleA, ExampleB, ExampleC];
    assert ms[..2] == [ExampleA, ExampleB] && [ExampleA, ExampleB][..1] == [ExampleA];
    assert [ExampleA][..0] == [];
    PrereqCodesSnoc(ms);
    PrereqCodesSnoc([ExampleA, ExampleB]);
    PrereqCodesSnoc([ExampleA]);
    assert Members([]) == {};
    assert Members(["A", "D"]) == {"A", "D"};
    assert Members(["A"]) == {"A"};
  }

  /** In the example, the keys are A, B, C and D: D appears although it is
      not in the catalogue. */
  lemma ExampleKeys()
    ensures Graph([ExampleA, ExampleB, ExampleC]).Keys == {"A", "B", "C", "D"}
  {
    GraphShape([ExampleA, ExampleB, ExampleC]);
    ExampleCodes();
    ExamplePrereqCodes();
  }

  /** In the example, the dependents of `p` by module: A contributes none,
      B and C one entry each for every time they name `p`. */
  lemma ExampleDependents(p: string)
    ensures Dependents([ExampleA, ExampleB, ExampleC], p)
         == Copies("B", multiset(["A"])[p]) + Copies("C", multiset(["A", "D"])[p])
  {
    ExampleFacts();
    DependentsSnoc([], ExampleA, p);
    DependentsSnoc([ExampleA], ExampleB, p);
    DependentsSnoc([ExampleA, ExampleB], ExampleC, p);
    assert [] + [ExampleA] == [ExampleA];
    assert [ExampleA] + [ExampleB] == [ExampleA, ExampleB];
    assert [ExampleA, ExampleB] + [ExampleC] == [ExampleA, ExampleB, ExampleC];
  }

  /** The example graph: A lists B then C, D lists C, and B and C list
      nobody. */
  lemma CatalogueExample()
    ensures var g := Graph([ExampleA, ExampleB, ExampleC]);
            && g.Keys == {"A", "B", "C", "D"}
            && g["A"] == ["B", "C"]
            && g["D"] == ["C"]
            && g["B"] == []
            && g["C"] == []
  {
    var ms := [ExampleA, ExampleB, ExampleC];
    ExampleKeys();
    GraphShape(ms);
    ExampleFacts();
    assert Copies("B", 1) == ["B"] && Copies("C", 1) == ["C"];
    ExampleDependents("A");
    assert Get(Graph(ms), "A") == ["B", "C"];
    ExampleDependents("D");
    assert Get(Graph(ms), "D") == ["C"];
    ExampleDependents("B");
    assert Get(Graph(ms), "B") == [];
    ExampleDependents("C");
    assert Get(Graph(ms), "C") == [];
  }
}
