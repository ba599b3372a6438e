/** The curriculum builder: an insertion-ordered collection of modules, each
    holding its topics and the ids of the modules it depends on, with the
    total running time and the transitive prerequisite chain of a module. */
module Curriculum {
  import opened Options

  type ModuleId = string

  /** A timed unit of content inside a module. */
  datatype Topic = Topic(
    topicId: string,
    title: string,
    description: string,
    durationMinutes: int,
    resources: seq<string>)

  /** A module owns its topics; its prerequisites are ids of other modules,
      which need not exist in the builder. */
  datatype Module = Module(
    moduleId: ModuleId,
    title: string,
    description: string,
    topics: seq<Topic>,
    prerequisites: seq<ModuleId>)

  /** One module of the exported snapshot. */
  datatype ModuleRecord = ModuleRecord(
    moduleId: ModuleId,
    title: string,
    description: string,
    prerequisites: seq<ModuleId>,
    topicCount: nat)

  /** The snapshot `export` returns. */
  datatype CurriculumExport = CurriculumExport(
    title: string,
    domain: string,
    moduleCount: nat,
    totalDurationMinutes: int,
    modules: seq<ModuleRecord>)

  ghost predicate Distinct(s: seq<ModuleId>) {
    forall i, j :: 0 <= i < j < |s| ==> s[i] != s[j]
  }

  /** A list without repetitions has as many elements as its set. */
  lemma {:induction false} DistinctCard(s: seq<ModuleId>)
    requires Distinct(s)
    ensures |set x | x in s| == |s|
  {
    if s != [] {
      var rest := s[1..];
      assert Distinct(rest) by {
        forall i, j | 0 <= i < j < |rest| ensures rest[i] != rest[j] {
          assert rest[i] == s[i + 1] && rest[j] == s[j + 1];
        }
      }
      DistinctCard(rest);
      assert (set x | x in s) == {s[0]} + (set x | x in rest);
      assert s[0] !in (set x | x in rest);
    }
  }

  /** The modules of `g` listed in the order of `order`. */
  function ModulesInOrder(order: seq<ModuleId>, g: map<ModuleId, Module>): seq<Module>
    requires forall k :: k in order ==> k in g
  {
    seq(|order|, i requires 0 <= i < |order| => g[order[i]])
  }

  /** One record of the snapshot: the module's fields and its number of topics. */
  function RecordOf(m: Module): ModuleRecord {
    ModuleRecord(m.moduleId, m.title, m.description, m.prerequisites, |m.topics|)
  }

  // ---------------------------------------------------------------------------
  // Durations

  /** Sum of the durations of `ts`. */
  function TopicsDuration(ts: seq<Topic>): int {
    if ts == [] then 0 else TopicsDuration(ts[..|ts| - 1]) + ts[|ts| - 1].durationMinutes
  }

  /** Sum over the modules of the durations of their topics. */
  function ModulesDuration(ms: seq<Module>): int {
    if ms == [] then 0 else ModulesDuration(ms[..|ms| - 1]) + TopicsDuration(ms[|ms| - 1].topics)
  }

  /** Every topic of every module, module after module. */
  function AllTopics(ms: seq<Module>): seq<Topic> {
    if ms == [] then [] else AllTopics(ms[..|ms| - 1]) + ms[|ms| - 1].topics
  }

  lemma {:induction false} TopicsDurationAppend(a: seq<Topic>, b: seq<Topic>)
    ensures TopicsDuration(a + b) == TopicsDuration(a) + TopicsDuration(b)
    decreases |b|
  {
    if b == [] {
      assert a + b == a;
    } else {
      var front := b[..|b| - 1];
      assert (a + b)[..|a + b| - 1] == a + front;
      TopicsDurationAppend(a, front);
    }
  }

  /** The nested sum is the sum of the durations of all topics together. */
  lemma {:induction false} ModulesDurationIsSumOverAllTopics(ms: seq<Module>)
    ensures ModulesDuration(ms) == TopicsDuration(AllTopics(ms))
  {
    if ms != [] {
      var front := ms[..|ms| - 1];
      ModulesDurationIsSumOverAllTopics(front);
      TopicsDurationAppend(AllTopics(front), ms[|ms| - 1].topics);
    }
  }

  /** Replacing one module changes the total by the difference of the two modules' durations. */
  lemma {:induction false} ModulesDurationUpdate(ms: seq<Module>, k: nat, m: Module)
    requires k < |ms|
    ensures ModulesDuration(ms[k := m])
         == ModulesDuration(ms) - TopicsDuration(ms[k].topics) + TopicsDuration(m.topics)
  {
    var n := |ms| - 1;
    if k == n {
      assert ms[k := m][..n] == ms[..n];
    } else {
      assert ms[k := m][..n] == ms[..n][k := m];
      ModulesDurationUpdate(ms[..n], k, m);
    }
  }

  // ---------------------------------------------------------------------------
  // The prerequisite graph

  /** `path` follows prerequisite links: every element but the last is a known
      module whose prerequisites list the next element. */
  ghost predicate IsPath(g: map<ModuleId, Module>, path: seq<ModuleId>) {
    forall i :: 0 <= i < |path| - 1 ==> path[i] in g && path[i + 1] in g[path[i]].prerequisites
  }

  /** `to` can be reached from `from` by following prerequisite links (zero or more). */
  ghost predicate Reachable(g: map<ModuleId, Module>, from: ModuleId, to: ModuleId) {
    exists path {:trigger IsPath(g, path)} :: IsPath(g, path) && |path| > 0 && path[0] == from && path[|path| - 1] == to
  }

  /** No module depends, directly or transitively, on itself. */
  ghost predicate Acyclic(g: map<ModuleId, Module>) {
    forall path {:trigger IsPath(g, path)} :: IsPath(g, path) && |path| > 1 ==> path[0] != path[|path| - 1]
  }

  /** Every known prerequisite of an entry of `chain` appears before that entry. */
  ghost predicate PrerequisitesFirst(g: map<ModuleId, Module>, chain: seq<ModuleId>) {
    forall i, p {:trigger p in g[chain[i]].prerequisites} ::
      0 <= i < |chain| && chain[i] in g && p in g[chain[i]].prerequisites && p in g ==>
      p in chain[..i]
  }

  /** Every known prerequisite of an entry of `chain` appears before that entry,
      unless the prerequisite leads back to the entry, that is, the two lie on a
      cycle. A cycle elsewhere in the graph does not weaken the order. */
  ghost predicate PrerequisitesFirstOrCycle(g: map<ModuleId, Module>, chain: seq<ModuleId>) {
    forall i, p {:trigger p in g[chain[i]].prerequisites} ::
      0 <= i < |chain| && chain[i] in g && p in g[chain[i]].prerequisites && p in g ==>
      p in chain[..i] || Reachable(g, p, chain[i])
  }

  /** A numbering of the modules under which every prerequisite ranks below its dependent. */
  ghost predicate RankedBy(g: map<ModuleId, Module>, rank: map<ModuleId, nat>) {
    forall m, p {:trigger p in g[m].prerequisites} :: m in g && p in g[m].prerequisites && p in g ==>
      m in rank && p in rank && rank[p] < rank[m]
  }

  lemma {:induction false} RankDecreasesAlongPath(g: map<ModuleId, Module>, rank: map<ModuleId, nat>, path: seq<ModuleId>, k: nat)
    requires RankedBy(g, rank) && IsPath(g, path)
    requires 0 < k < |path| && path[k] in g
    ensures path[0] in rank && path[k] in rank && rank[path[k]] < rank[path[0]]
  {
    if k > 1 {
      RankDecreasesAlongPath(g, rank, path, k - 1);
    }
  }

  /** A graph that admits such a numbering has no cycle. */
  lemma RankedAcyclic(g: map<ModuleId, Module>, rank: map<ModuleId, nat>)
    requires RankedBy(g, rank)
    ensures Acyclic(g)
  {
    forall path | IsPath(g, path) && |path| > 1 ensures path[0] != path[|path| - 1] {
      if path[|path| - 1] in g {
        RankDecreasesAlongPath(g, rank, path, |path| - 1);
      }
    }
  }

  /** If the last module of a path lists a module of that path as a
      prerequisite, the graph has a cycle. */
  lemma CycleThroughPath(g: map<ModuleId, Module>, s: seq<ModuleId>, p: ModuleId)
    requires IsPath(g, s) && |s| > 0 && s[|s| - 1] in g
    requires p in g[s[|s| - 1]].prerequisites && p in s
    ensures !Acyclic(g)
  {
    var j :| 0 <= j < |s| && s[j] == p;
    var cycle := s[j..] + [p];
    forall i | 0 <= i < |cycle| - 1
      ensures cycle[i] in g && cycle[i + 1] in g[cycle[i]].prerequisites
    {
      if i < |s| - j - 1 {
        assert cycle[i] == s[j + i] && cycle[i + 1] == s[j + i + 1];
      }
    }
    assert IsPath(g, cycle) && |cycle| > 1 && cycle[0] == cycle[|cycle| - 1];
  }

  /** A set that contains the prerequisites of each of its known modules
      contains the end of every path that starts inside it. */
  lemma {:induction false} ClosedContainsPathEnd(g: map<ModuleId, Module>, s: set<ModuleId>, path: seq<ModuleId>)
    requires IsPath(g, path) && |path| > 0 && path[0] in s
    requires forall v, p :: v in s && v in g && p in g[v].prerequisites ==> p in s
    ensures path[|path| - 1] in s
    decreases |path|
  {
    if |path| > 1 {
      var front := path[..|path| - 1];
      assert IsPath(g, front) by {
        forall i | 0 <= i < |front| - 1 ensures front[i] in g && front[i + 1] in g[front[i]].prerequisites {
          assert front[i] == path[i] && front[i + 1] == path[i + 1];
        }
      }
      ClosedContainsPathEnd(g, s, front);
      assert path[|path| - 2] in g && path[|path| - 1] in g[path[|path| - 2]].prerequisites;
    }
  }

  lemma ProperSubsetCard(a: set<ModuleId>, b: set<ModuleId>)
    requires a < b
    ensures |a| < |b|
  {
    assert b == a + (b - a);
    assert b - a != {};
  }

  lemma SubsetCard(a: set<ModuleId>, b: set<ModuleId>)
    requires a <= b
    ensures |a| <= |b|
  {
    assert b == a + (b - a);
  }

  /** The state of the depth-first resolution between two steps. `stack` lists
      the modules whose prerequisites are being resolved, the target first;
      a visited module off the stack is finished. */
  ghost predicate ResolveInv(g: map<ModuleId, Module>, target: ModuleId, visited: set<ModuleId>,
                             chain: seq<ModuleId>, stack: seq<ModuleId>)
  {
    // the chain holds distinct, visited, known modules, never the target
    (forall x {:trigger x in chain} :: x in chain ==> x in g && x in visited && x != target) &&
    Distinct(chain) &&
    // modules in progress are known and visited
    (forall x {:trigger x in stack} :: x in stack ==> x in g && x in visited) &&
    // a finished known module other than the target is in the chain
    (forall v {:trigger v in visited} :: v in visited && v in g && v !in stack && v != target ==> v in chain) &&
    // a finished known module has all its prerequisites visited
    (forall v, p {:trigger p in g[v].prerequisites, v in visited} ::
      v in visited && v in g && v !in stack && p in g[v].prerequisites ==> p in visited) &&
    // only modules reachable from the target are visited
    (forall v {:trigger Reachable(g, target, v)} :: v in visited ==> Reachable(g, target, v)) &&
    PrerequisitesFirstOrCycle(g, chain)
  }

  /** Marking `mid` visited: an unknown id is finished at once, a known module goes on the stack. */
  lemma Visit(g: map<ModuleId, Module>, target: ModuleId, visited: set<ModuleId>,
              chain: seq<ModuleId>, stack: seq<ModuleId>, mid: ModuleId)
    requires ResolveInv(g, target, visited, chain, stack)
    requires IsPath(g, stack + [mid]) && (stack + [mid])[0] == target
    requires mid !in visited
    ensures mid !in g ==> ResolveInv(g, target, visited + {mid}, chain, stack)
    ensures mid in g ==> ResolveInv(g, target, visited + {mid}, chain, stack + [mid])
  {
    var path := stack + [mid];
    assert path[0] == target && path[|path| - 1] == mid;
    assert Reachable(g, target, mid);
  }

  /** Popping `mid` off the stack once all its prerequisites are visited, and
      appending it to the chain unless it is the target. */
  lemma Finish(g: map<ModuleId, Module>, target: ModuleId, visited: set<ModuleId>,
               chain: seq<ModuleId>, stack: seq<ModuleId>, mid: ModuleId)
    requires ResolveInv(g, target, visited, chain, stack + [mid])
    requires IsPath(g, stack + [mid]) && (stack + [mid])[0] == target
    requires mid in g && mid !in chain && mid !in stack
    requires forall p :: p in g[mid].prerequisites ==> p in visited
    ensures ResolveInv(g, target, visited, if mid != target then chain + [mid] else chain, stack)
  {
    var s := stack + [mid];
    var chain' := if mid != target then chain + [mid] else chain;
    assert s[0] == target && s[|s| - 1] == mid;
    assert target in s && mid in s;
    assert forall x :: x in stack ==> x in s;
    forall x | x in chain' ensures x in g && x in visited && x != target {
      if x != mid {
        assert x in chain;
      }
    }
    forall v | v in visited && v in g && v !in stack && v != target ensures v in chain' {
      if v != mid {
        assert v !in s;
      }
    }
    forall v, p | v in visited && v in g && v !in stack && p in g[v].prerequisites ensures p in visited {
      if v != mid {
        assert v !in s;
      }
    }
    if mid != target {
      assert Distinct(chain');
      AppendKeepsOrderOrCycle(g, target, visited, chain, s);
    }
  }

  /** Every suffix of a path is a path, from its first module to the path's end. */
  lemma SuffixIsPath(g: map<ModuleId, Module>, s: seq<ModuleId>, j: nat)
    requires IsPath(g, s) && j < |s|
    ensures Reachable(g, s[j], s[|s| - 1])
  {
    var suffix := s[j..];
    forall i | 0 <= i < |suffix| - 1 ensures suffix[i] in g && suffix[i + 1] in g[suffix[i]].prerequisites {
      assert suffix[i] == s[j + i] && suffix[i + 1] == s[j + i + 1];
    }
    assert IsPath(g, suffix) && suffix[0] == s[j] && suffix[|suffix| - 1] == s[|s| - 1];
  }

  /** In any graph, the module on top of the stack, once all its prerequisites
      are visited, may follow the chain: each of its known prerequisites is
      either finished, hence already in the chain, or still on the stack, and
      then a path leads from it back to the module. */
  lemma AppendKeepsOrderOrCycle(g: map<ModuleId, Module>, target: ModuleId, visited: set<ModuleId>,
                                chain: seq<ModuleId>, s: seq<ModuleId>)
    requires PrerequisitesFirstOrCycle(g, chain)
    requires IsPath(g, s) && |s| > 0 && s[0] == target && s[|s| - 1] in g
    requires forall p :: p in g[s[|s| - 1]].prerequisites ==> p in visited
    requires forall v {:trigger v in visited} :: v in visited && v in g && v !in s && v != target ==> v in chain
    ensures PrerequisitesFirstOrCycle(g, chain + [s[|s| - 1]])
  {
    var mid := s[|s| - 1];
    var chain' := chain + [mid];
    assert target in s;
    forall i, p | 0 <= i < |chain'| && chain'[i] in g && p in g[chain'[i]].prerequisites && p in g
      ensures p in chain'[..i] || Reachable(g, p, chain'[i])
    {
      if i < |chain| {
        assert chain'[i] == chain[i];
        assert chain'[..i] == chain[..i];
      } else if p in s {
        var j :| 0 <= j < |s| && s[j] == p;
        SuffixIsPath(g, s, j);
      } else {
        assert p in visited;
        assert chain'[..i] == chain;
      }
    }
  }

  /** Without cycles the exception is void: every known prerequisite of an
      entry of the chain appears before that entry. */
  lemma OrderWithoutCycles(g: map<ModuleId, Module>, chain: seq<ModuleId>)
    requires Acyclic(g) && PrerequisitesFirstOrCycle(g, chain)
    ensures PrerequisitesFirst(g, chain)
  {
    forall i, p | 0 <= i < |chain| && chain[i] in g && p in g[chain[i]].prerequisites && p in g
      ensures p in chain[..i]
    {
      if p !in chain[..i] {
        var path :| IsPath(g, path) && |path| > 0 && path[0] == p && path[|path| - 1] == chain[i];
        CycleThroughPath(g, path, p);
      }
    }
  }

  /** The recursive step of `get_prerequisite_chain`: resolves the
      prerequisites of `mid` first, then appends `mid` unless it is the target.
      The module mapping, the visited set and the chain, which the source's
      nested function shares with its caller, are passed in and out. */
  method Resolve(g: map<ModuleId, Module>, target: ModuleId, mid: ModuleId,
                 visited: set<ModuleId>, chain: seq<ModuleId>, ghost stack: seq<ModuleId>)
    returns (visited': set<ModuleId>, chain': seq<ModuleId>)
    requires ResolveInv(g, target, visited, chain, stack)
    requires IsPath(g, stack + [mid]) && (stack + [mid])[0] == target
    ensures ResolveInv(g, target, visited', chain', stack)
    ensures visited <= visited' && mid in visited'
    ensures chain <= chain'
    ensures forall i :: |chain| <= i < |chain'| ==> chain'[i] !in visited
    decreases |g.Keys - visited|, 0
  {
    if mid in visited {
      return visited, chain;
    }
    Visit(g, target, visited, chain, stack, mid);
    visited', chain' := visited + {mid}, chain;
    if mid !in g {
      return;
    }
    ProperSubsetCard(g.Keys - visited', g.Keys - visited);
    visited', chain' := ResolvePrerequisites(g, target, mid, visited', chain', stack);
    forall k | 0 <= k < |chain'| ensures chain'[k] != mid {
      if k < |chain| {
        assert chain[k] in chain;
      }
    }
    Finish(g, target, visited', chain', stack, mid);
    if mid != target {
      chain' := chain' + [mid];
    }
  }

  /** The loop of the recursive step over the prerequisites of `mid`, which is
      on top of the stack: resolves each of them in turn. */
  method ResolvePrerequisites(g: map<ModuleId, Module>, target: ModuleId, mid: ModuleId,
                              visited: set<ModuleId>, chain: seq<ModuleId>, ghost stack: seq<ModuleId>)
    returns (visited': set<ModuleId>, chain': seq<ModuleId>)
    requires ResolveInv(g, target, visited, chain, stack + [mid])
    requires IsPath(g, stack + [mid]) && (stack + [mid])[0] == target
    requires mid in g && mid in visited
    ensures ResolveInv(g, target, visited', chain', stack + [mid])
    ensures visited <= visited'
    ensures chain <= chain'
    ensures forall k :: |chain| <= k < |chain'| ==> chain'[k] !in visited
    ensures forall p :: p in g[mid].prerequisites ==> p in visited'
    decreases |g.Keys - visited|, 1
  {
    var prerequisites := g[mid].prerequisites;
    visited', chain' := visited, chain;
    for i := 0 to |prerequisites|
      invariant ResolveInv(g, target, visited', chain', stack + [mid])
      invariant visited <= visited'
      invariant chain <= chain'
      invariant forall k :: |chain| <= k < |chain'| ==> chain'[k] !in visited
      invariant forall j :: 0 <= j < i ==> prerequisites[j] in visited'
    {
      var p := prerequisites[i];
      SubsetCard(g.Keys - visited', g.Keys - visited);
      assert IsPath(g, stack + [mid] + [p]);
      ghost var before, seen := chain', visited';
      visited', chain' := Resolve(g, target, p, visited', chain', stack + [mid]);
      forall j | 0 <= j <= i ensures prerequisites[j] in visited' {
        if j < i {
          assert prerequisites[j] in seen;
        }
      }
      forall k | |chain| <= k < |chain'| ensures chain'[k] !in visited {
        if k < |before| {
          assert chain'[k] == before[k];
        }
      }
    }
  }

  // ---------------------------------------------------------------------------
  // The builder

  /** Storing a module without topics under its id, which is appended to the
      order when new: the total duration loses the old module's topics, if any. */
  lemma PutModuleDuration(order: seq<ModuleId>, g: map<ModuleId, Module>, m: Module)
    requires Distinct(order) && (forall k :: k in order <==> k in g)
    requires m.topics == []
    ensures var order' := if m.moduleId in g then order else order + [m.moduleId];
      (forall k :: k in order' ==> k in g[m.moduleId := m]) &&
      ModulesDuration(ModulesInOrder(order', g[m.moduleId := m]))
        == ModulesDuration(ModulesInOrder(order, g)) - (if m.moduleId in g then TopicsDuration(g[m.moduleId].topics) else 0)
  {
    var before := ModulesInOrder(order, g);
    var id := m.moduleId;
    if id in g {
      var k :| 0 <= k < |order| && order[k] == id;
      forall j | 0 <= j < |order| ensures g[id := m][order[j]] == before[k := m][j] {
        if j != k {
          assert order[j] != id;
        }
      }
      assert ModulesInOrder(order, g[id := m]) == before[k := m];
      ModulesDurationUpdate(before, k, m);
    } else {
      assert ModulesInOrder(order + [id], g[id := m]) == before + [m];
      assert (before + [m])[..|before|] == before;
    }
  }

  /** What `get_prerequisite_chain` promises for `target`: each known module the
      target depends on, directly or transitively, exactly once, never the
      target itself, and every module after its own prerequisites, except for a
      prerequisite that lies on a cycle with the module. */
  ghost predicate PrerequisiteChain(g: map<ModuleId, Module>, target: ModuleId, chain: seq<ModuleId>) {
    Distinct(chain) &&
    target !in chain &&
    (forall x {:trigger x in chain} :: x in chain <==> x in g && x != target && Reachable(g, target, x)) &&
    (Acyclic(g) ==> PrerequisitesFirst(g, chain)) &&
    PrerequisitesFirstOrCycle(g, chain)
  }

  class CurriculumBuilder {
    const title: string
    const domain: string
    /** The module ids in insertion order, the iteration order of the module mapping. */
    var order: seq<ModuleId>
    var modules: map<ModuleId, Module>

    ghost predicate Valid()
      reads this
    {
      Distinct(order) &&
      (forall k :: k in order <==> k in modules) &&
      (forall k :: k in modules ==> modules[k].moduleId == k)
    }

    constructor (title: string, domain: string := "general")
      ensures Valid()
      ensures this.title == title && this.domain == domain
      ensures order == [] && modules == map[]
    {
      this.title := title;
      this.domain := domain;
      order := [];
      modules := map[];
    }

    /** The modules in insertion order. */
    function Values(): seq<Module>
      reads this
      requires Valid()
    {
      ModulesInOrder(order, modules)
    }

    /** `module_count`: the number of modules. */
    function ModuleCount(): (n: nat)
      reads this
      requires Valid()
      ensures n == |order|
    {
      assert modules.Keys == set x | x in order;
      DistinctCard(order);
      |modules|
    }

    /** The nested sum of topic durations that `get_total_duration` computes:
        the durations of all topics of all modules added together. */
    function TotalDuration(): (r: int)
      reads this
      requires Valid()
      ensures r == TopicsDuration(AllTopics(Values()))
      ensures order == [] ==> r == 0
    {
      ModulesDurationIsSumOverAllTopics(Values());
      ModulesDuration(Values())
    }

    /** `add_module`: stores a module with no topics under the given id. An id
        already in use is overwritten in place: its old module and topics are
        dropped and the count stays the same. */
    method AddModule(moduleId: ModuleId, title: string, description: string,
                     prerequisites: Option<seq<ModuleId>> := None) returns (m: Module)
      requires Valid()
      modifies this
      ensures Valid()
      ensures m == Module(moduleId, title, description, [], prerequisites.GetOr([]))
      ensures order == if moduleId in old(modules) then old(order) else old(order) + [moduleId]
      ensures modules == old(modules)[moduleId := m]
      ensures ModuleCount() == old(ModuleCount()) + (if moduleId in old(modules) then 0 else 1)
      ensures TotalDuration() == old(TotalDuration())
        - (if moduleId in old(modules) then TopicsDuration(old(modules)[moduleId].topics) else 0)
    {
      m := Module(moduleId, title, description, [], prerequisites.GetOr([]));
      PutModuleDuration(order, modules, m);
      if moduleId !in modules {
        order := order + [moduleId];
      }
      modules := modules[moduleId := m];
    }

    /** `add_topic`: an unknown module id changes nothing and yields `None`;
        otherwise the new topic goes at the end of that module's topics. */
    method AddTopic(moduleId: ModuleId, topicId: string, title: string, description: string,
                    durationMinutes: int := 60, resources: Option<seq<string>> := None)
      returns (t: Option<Topic>)
      requires Valid()
      modifies this
      ensures Valid()
      ensures order == old(order)
      ensures moduleId !in old(modules) ==> t == None && modules == old(modules)
      ensures moduleId in old(modules) ==>
        t == Some(Topic(topicId, title, description, durationMinutes, resources.GetOr([]))) &&
        modules == old(modules)[moduleId := old(modules)[moduleId].(topics := old(modules)[moduleId].topics + [t.value])]
      ensures TotalDuration() == old(TotalDuration()) + (if t.Some? then durationMinutes else 0)
    {
      if moduleId !in modules {
        return None;
      }
      var m := modules[moduleId];
      var topic := Topic(topicId, title, description, durationMinutes, resources.GetOr([]));
      var m' := m.(topics := m.topics + [topic]);
      ghost var before := Values();
      ghost var k :| 0 <= k < |order| && order[k] == moduleId;
      modules := modules[moduleId := m'];
      t := Some(topic);
      assert Values() == before[k := m'];
      assert (m.topics + [topic])[..|m.topics|] == m.topics;
      ModulesDurationUpdate(before, k, m');
    }

    /** `get_total_duration`: the sum of the durations of all topics of all modules. */
    method GetTotalDuration() returns (total: int)
      requires Valid()
      ensures total == TotalDuration()
      ensures total == TopicsDuration(AllTopics(Values()))
    {
      ghost var ms := Values();
      total := 0;
      for i := 0 to |order|
        invariant total == ModulesDuration(ms[..i])
      {
        var topics := modules[order[i]].topics;
        for j := 0 to |topics|
          invariant total == ModulesDuration(ms[..i]) + TopicsDuration(topics[..j])
        {
          total := total + topics[j].durationMinutes;
          assert topics[..j + 1][..j] == topics[..j];
        }
        assert topics[..|topics|] == topics;
        assert ms[..i + 1][..i] == ms[..i];
      }
      assert ms[..|order|] == ms;
      ModulesDurationIsSumOverAllTopics(ms);
    }

    /** `get_prerequisite_chain`: the known modules the target depends on,
        directly or transitively, each once, without the target itself; every
        module comes after its own prerequisites, except those on a cycle with it. */
    method GetPrerequisiteChain(target: ModuleId) returns (chain: seq<ModuleId>)
      ensures PrerequisiteChain(modules, target, chain)
    {
      var visited;
      assert IsPath(modules, [] + [target]);
      visited, chain := Resolve(modules, target, target, {}, [], []);
      if Acyclic(modules) {
        OrderWithoutCycles(modules, chain);
      }
      forall x | x in modules && x != target && Reachable(modules, target, x)
        ensures x in chain
      {
        var path :| IsPath(modules, path) && |path| > 0 && path[0] == target && path[|path| - 1] == x;
        ClosedContainsPathEnd(modules, visited, path);
      }
    }

    /** `export`: counts, the total duration and one record per module, in insertion order. */
    method Export() returns (e: CurriculumExport)
      requires Valid()
      ensures e.title == title && e.domain == domain
      ensures e.moduleCount == ModuleCount()
      ensures e.totalDurationMinutes == TotalDuration()
      ensures |e.modules| == e.moduleCount
      ensures forall i :: 0 <= i < |e.modules| ==>
        e.modules[i].moduleId == order[i] && e.modules[i] == RecordOf(modules[order[i]])
    {
      var total := GetTotalDuration();
      var ms := Values();
      var records := seq(|ms|, i requires 0 <= i < |ms| => RecordOf(ms[i]));
      e := CurriculumExport(title, domain, ModuleCount(), total, records);
    }
  }

  /** The prerequisites of the three modules `m3` -> `m2` -> `m1`. */
  ghost predicate ThreeInARow(g: map<ModuleId, Module>) {
    g.Keys == {"m1", "m2", "m3"} &&
    g["m1"].prerequisites == [] && g["m2"].prerequisites == ["m1"] && g["m3"].prerequisites == ["m2"]
  }

  lemma ThreeModulesInARow(m1: Module, m2: Module, m3: Module)
    requires m1.prerequisites == [] && m2.prerequisites == ["m1"] && m3.prerequisites == ["m2"]
    ensures ThreeInARow(map["m1" := m1, "m2" := m2, "m3" := m3])
  {
    assert "m1" != "m2" && "m2" != "m3" && "m1" != "m3" by {
      assert "m1"[1] != "m2"[1] && "m2"[1] != "m3"[1] && "m1"[1] != "m3"[1];
    }
  }

  lemma ThreeInARowAcyclic(g: map<ModuleId, Module>)
    requires ThreeInARow(g)
    ensures Acyclic(g)
  {
    var rank := map["m1" := 0, "m2" := 1, "m3" := 2];
    forall m, p | m in g && p in g[m].prerequisites && p in g
      ensures m in rank && p in rank && rank[p] < rank[m]
    {
      assert m == "m1" || m == "m2" || m == "m3";
    }
    RankedAcyclic(g, rank);
  }

  /** Whatever `get_prerequisite_chain` returns for `m3` when `m3` depends on
      `m2` and `m2` on `m1`, it is exactly `m1` followed by `m2`. */
  lemma ThreeInARowChain(g: map<ModuleId, Module>, chain: seq<ModuleId>)
    requires ThreeInARow(g)
    requires PrerequisiteChain(g, "m3", chain)
    ensures chain == ["m1", "m2"]
  {
    ThreeInARowAcyclic(g);
    assert IsPath(g, ["m3", "m2"]);
    assert IsPath(g, ["m3", "m2", "m1"]);
    assert (set x | x in chain) == {"m1", "m2"};
    DistinctCard(chain);
    var i :| 0 <= i < |chain| && chain[i] == "m2";
    assert "m1" in g["m2"].prerequisites;
    assert "m1" in chain[..i];
  }

  /** The chain for three modules where the third depends on the second and the
      second on the first. */
  method PrerequisiteChainExample() returns (chain: seq<ModuleId>)
    ensures chain == ["m1", "m2"]
  {
    assert "m1" != "m2" && "m2" != "m3" && "m1" != "m3" by {
      assert "m1"[1] != "m2"[1] && "m2"[1] != "m3"[1] && "m1"[1] != "m3"[1];
    }
    var b := new CurriculumBuilder("Test");
    var m1 := b.AddModule("m1", "Foundations", "Base module");
    assert m1.prerequisites == [];
    var m2 := b.AddModule("m2", "Intermediate", "Builds on foundations", Some(["m1"]));
    assert m2.prerequisites == ["m1"];
    var m3 := b.AddModule("m3", "Advanced", "Builds on intermediate", Some(["m2"]));
    assert m3.prerequisites == ["m2"];
    ghost var g := b.modules;
    assert g == map["m1" := m1, "m2" := m2, "m3" := m3];
    ThreeModulesInARow(m1, m2, m3);
    chain := b.GetPrerequisiteChain("m3");
    ThreeInARowChain(g, chain);
  }

  /** The modules `m3` -> `m2` -> `m1` beside two modules `d` and `e` that
      depend on each other. */
  ghost predicate ThreeInARowBesideCycle(g: map<ModuleId, Module>) {
    g.Keys == {"m1", "m2", "m3", "d", "e"} &&
    g["m1"].prerequisites == [] && g["m2"].prerequisites == ["m1"] && g["m3"].prerequisites == ["m2"] &&
    g["d"].prerequisites == ["e"] && g["e"].prerequisites == ["d"]
  }

  /** A cycle among modules the target does not depend on leaves the chain of
      the target as it is without them. */
  lemma ThreeInARowBesideCycleChain(g: map<ModuleId, Module>, chain: seq<ModuleId>)
    requires ThreeInARowBesideCycle(g)
    requires PrerequisiteChain(g, "m3", chain)
    ensures chain == ["m1", "m2"]
  {
    assert "m1" != "m2" && "m2" != "m3" && "m1" != "m3" by {
      assert "m1"[1] != "m2"[1] && "m2"[1] != "m3"[1] && "m1"[1] != "m3"[1];
    }
    var closed := {"m1", "m2", "m3"};
    forall x | x in chain ensures x in closed {
      var path :| IsPath(g, path) && |path| > 0 && path[0] == "m3" && path[|path| - 1] == x;
      ClosedContainsPathEnd(g, closed, path);
    }
    assert IsPath(g, ["m3", "m2"]);
    assert IsPath(g, ["m3", "m2", "m1"]);
    assert (set x | x in chain) == {"m1", "m2"};
    DistinctCard(chain);
    var i :| 0 <= i < |chain| && chain[i] == "m2";
    assert "m1" in g["m2"].prerequisites;
    // "m1" has no prerequisites, so no path leads from it back to "m2"
    assert !Reachable(g, "m1", "m2") by {
      forall path | IsPath(g, path) && |path| > 0 && path[0] == "m1" ensures path[|path| - 1] == "m1" {
        ClosedContainsPathEnd(g, {"m1"}, path);
      }
    }
    assert "m1" in chain[..i];
  }
}
