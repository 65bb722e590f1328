/**
 * View compilation orchestration (ViewDefinitionCompiler): one dependency
 * graph per calculation configuration, built from the configuration's
 * specific requirements and its portfolio requirements, with the
 * incremental variant that reuses previous graphs, and the purge of
 * target resolutions no graph uses.
 *
 * The dependency graph builder, graph pruning, the sub-graphing filter, the
 * portfolio traversal callback and the target resolvers are collaborators
 * this model sees only through their results; they are fields of
 * `Collaborators`.
 */
module ViewCompilation {
  import opened Wrappers
  import opened Portfolios
  import opened Views

  /** A value produced by a graph: a value name on a resolved target. */
  datatype ValueSpec = ValueSpec(valueName: string, targetId: UniqueId)

  /** A graph's terminal outputs: each produced value and the requirements it satisfies. */
  type Terminals = map<ValueSpec, set<ValueRequirement>>

  /** A dependency graph, as far as compilation looks into it. */
  datatype Graph = Graph(config: string, targets: set<UniqueId>, terminals: Terminals)

  /**
   * A dependency graph builder: the configuration it builds for, the graph it
   * starts from, the targets added to it so far and the portfolio set on its
   * compilation context.
   */
  datatype Builder = Builder(config: CalcConfig, graph: Graph, targets: set<ValueRequirement>, portfolio: Option<Portfolio>)

  /** A portfolio traversal callback: what it adds for one (security type, output) pair. */
  type Emitter = (string, OutputTemplate, PortfolioNode, Option<set<UniqueId>>, Option<set<UniqueId>>) -> set<ValueRequirement>

  datatype Collaborators = Collaborators(
    /** The graph a builder ends with, from its start graph and its targets. */
    build: (Graph, set<ValueRequirement>) -> Graph,
    /** removeUnnecessaryValues. */
    prune: Graph -> Graph,
    /** The sub-graphing filter against a set of expired resolutions: the graph kept and the requirements ejected. */
    subGraph: (Graph, set<UniqueId>) -> (Graph, set<ValueRequirement>),
    /** The portfolio traversal callback. */
    emit: Emitter,
    /** The specification resolver, for a portfolio reference. */
    specification: UniqueId -> Option<UniqueId>,
    /** The target resolver, for a portfolio specification. */
    resolve: UniqueId -> Option<Portfolio>)

  /** The exceptions compilation can end with. */
  datatype CompileFailure =
    | NoPortfolioReference                   // portfolio outputs are needed but the view names no portfolio
    | PortfolioNotIdentified(portfolioId: UniqueId)
    | PortfolioNotResolved(specification: UniqueId)
    | NoPortfolioForRequirements(config: string) // portfolio requirements on a builder without a portfolio

  // --------------------------------------------------- specific requirements

  /** The specific requirements whose target type the result model outputs. */
  function SpecificTargets(model: ResultModelDefinition, config: CalcConfig): set<ValueRequirement>
  {
    set q | q in config.specificRequirements && OutputMode(model, q.target.targetType) != NoOutput
  }

  /**
   * addSpecificRequirements: adds to the builder, one at a time, every specific
   * requirement of its configuration whose target type is output, and no other.
   */
  method AddSpecificRequirements(b: Builder, model: ResultModelDefinition) returns (r: Builder)
    ensures r.config == b.config && r.graph == b.graph && r.portfolio == b.portfolio
    ensures r.targets == b.targets + SpecificTargets(model, b.config)
    ensures forall q :: q in r.targets - b.targets ==>
              q in b.config.specificRequirements && OutputMode(model, q.target.targetType) != NoOutput
  {
    r := b;
    var todo := b.config.specificRequirements;
    while todo != {}
      invariant todo <= b.config.specificRequirements
      invariant r == b.(targets := b.targets + SpecificTargets(model, b.config) - (SpecificTargets(model, b.config) * todo - b.targets))
      decreases |todo|
    {
      var q :| q in todo;
      todo := todo - {q};
      if OutputMode(model, q.target.targetType) == NoOutput {
        continue;
      }
      r := r.(targets := r.targets + {q});
    }
  }

  // ----------------------------------------------------------------- stripes

  type RequirementsBySecurityType = map<string, set<OutputTemplate>>

  /** getStripes: every output requested for some security type. */
  function GetStripes(reqs: RequirementsBySecurityType): set<OutputTemplate>
  {
    set t, s | t in reqs && s in reqs[t] :: s
  }

  /** The requirement subset for one stripe: the stripe alone, for the types that ask for it. */
  function StripeSubset(reqs: RequirementsBySecurityType, stripe: OutputTemplate): RequirementsBySecurityType
  {
    map t | t in reqs && stripe in reqs[t] :: {stripe}
  }

  /** Each (security type, output) pair of the requirements lies in the subset of exactly one stripe: its own output. */
  lemma EachPairInExactlyOneStripe(reqs: RequirementsBySecurityType, t: string, o: OutputTemplate)
    requires t in reqs && o in reqs[t]
    ensures o in GetStripes(reqs)
    ensures (set s | s in GetStripes(reqs) && t in StripeSubset(reqs, s) && o in StripeSubset(reqs, s)[t]) == {o}
  {
    var covering := set s | s in GetStripes(reqs) && t in StripeSubset(reqs, s) && o in StripeSubset(reqs, s)[t];
    assert o in GetStripes(reqs);
    assert o in covering;
  }

  /**
   * The inner loop of the striped traversal: rewrites the reused subset map so
   * that every security type asking for the stripe maps to it alone and every
   * other type is absent.
   */
  method FillStripeSubset(reqs: RequirementsBySecurityType, stripe: OutputTemplate, subset: RequirementsBySecurityType)
    returns (r: RequirementsBySecurityType)
    requires subset.Keys <= reqs.Keys
    ensures r == StripeSubset(reqs, stripe)
  {
    r := subset;
    var todo := reqs.Keys;
    while todo != {}
      invariant todo <= reqs.Keys && r.Keys <= reqs.Keys
      invariant forall t :: t in reqs && t !in todo ==> (t in r <==> stripe in reqs[t])
      invariant forall t :: t in r && t !in todo ==> r[t] == {stripe}
      decreases |todo|
    {
      var t :| t in todo;
      todo := todo - {t};
      if stripe in reqs[t] {
        r := r[t := {stripe}];
      } else {
        r := r - {t};
      }
    }
  }

  /** Everything the callback adds when traversing with requirements `reqs`. */
  function Emitted(emit: Emitter, root: PortfolioNode, reqs: RequirementsBySecurityType,
                   includeIds: Option<set<UniqueId>>, excludeIds: Option<set<UniqueId>>): set<ValueRequirement>
  {
    set t, o, q | t in reqs && o in reqs[t] && q in emit(t, o, root, includeIds, excludeIds) :: q
  }

  /** What the callback adds for the pairs whose output is one of `stripes`. */
  function EmittedFor(emit: Emitter, root: PortfolioNode, reqs: RequirementsBySecurityType,
                      includeIds: Option<set<UniqueId>>, excludeIds: Option<set<UniqueId>>, stripes: set<OutputTemplate>)
    : set<ValueRequirement>
  {
    set t, o, q | t in reqs && o in reqs[t] && o in stripes && q in emit(t, o, root, includeIds, excludeIds) :: q
  }

  /** Traversing with one stripe's subset adds what the full requirements add for that stripe. */
  lemma StripeEmitsItsShare(emit: Emitter, root: PortfolioNode, reqs: RequirementsBySecurityType,
                            includeIds: Option<set<UniqueId>>, excludeIds: Option<set<UniqueId>>, stripe: OutputTemplate)
    ensures Emitted(emit, root, StripeSubset(reqs, stripe), includeIds, excludeIds) == EmittedFor(emit, root, reqs, includeIds, excludeIds, {stripe})
  {
    var sub := StripeSubset(reqs, stripe);
    forall q | q in EmittedFor(emit, root, reqs, includeIds, excludeIds, {stripe})
      ensures q in Emitted(emit, root, sub, includeIds, excludeIds)
    {
      var t, o :| t in reqs && o in reqs[t] && o in {stripe} && q in emit(t, o, root, includeIds, excludeIds);
      assert t in sub && o in sub[t];
    }
  }

  lemma EmittedForUnion(emit: Emitter, root: PortfolioNode, reqs: RequirementsBySecurityType,
                        includeIds: Option<set<UniqueId>>, excludeIds: Option<set<UniqueId>>, a: set<OutputTemplate>, b: set<OutputTemplate>)
    ensures EmittedFor(emit, root, reqs, includeIds, excludeIds, a + b) ==
            EmittedFor(emit, root, reqs, includeIds, excludeIds, a) + EmittedFor(emit, root, reqs, includeIds, excludeIds, b)
  {
  }

  /** All stripes together add what the unstriped traversal adds. */
  lemma StripesCoverAll(emit: Emitter, root: PortfolioNode, reqs: RequirementsBySecurityType,
                        includeIds: Option<set<UniqueId>>, excludeIds: Option<set<UniqueId>>)
    ensures EmittedFor(emit, root, reqs, includeIds, excludeIds, GetStripes(reqs)) == Emitted(emit, root, reqs, includeIds, excludeIds)
  {
    forall q | q in Emitted(emit, root, reqs, includeIds, excludeIds)
      ensures q in EmittedFor(emit, root, reqs, includeIds, excludeIds, GetStripes(reqs))
    {
      var t, o :| t in reqs && o in reqs[t] && q in emit(t, o, root, includeIds, excludeIds);
      assert o in GetStripes(reqs);
    }
  }

  /** The builder after addPortfolioRequirements, striped or not. */
  function WithPortfolioRequirements(emit: Emitter, b: Builder, includeIds: Option<set<UniqueId>>, excludeIds: Option<set<UniqueId>>)
    : Result<Builder, CompileFailure>
  {
    if !HasPortfolioRequirements(b.config) then Success(b)
    else if b.portfolio.None? then Failure(NoPortfolioForRequirements(b.config.name))
    else Success(b.(targets := b.targets + Emitted(emit, b.portfolio.value.rootNode, b.config.portfolioRequirementsBySecurityType, includeIds, excludeIds)))
  }

  /**
   * addPortfolioRequirements: a configuration without portfolio requirements
   * leaves the builder alone; otherwise the portfolio is traversed, either
   * once with all requirements or once per stripe with that stripe's subset.
   * Striping is neutral: either way the builder gains exactly what the
   * callback adds for every (security type, output) pair. The traversal of a
   * builder without a portfolio fails.
   */
  method AddPortfolioRequirements(emit: Emitter, striped: bool, b: Builder,
                                  includeIds: Option<set<UniqueId>>, excludeIds: Option<set<UniqueId>>)
    returns (r: Result<Builder, CompileFailure>)
    ensures r == WithPortfolioRequirements(emit, b, includeIds, excludeIds)
    ensures r.Success? ==> r.value.config == b.config && r.value.graph == b.graph && b.targets <= r.value.targets
  {
    if !HasPortfolioRequirements(b.config) {
      return Success(b);
    }
    if b.portfolio.None? {
      return Failure(NoPortfolioForRequirements(b.config.name));
    }
    var root := b.portfolio.value.rootNode;
    var reqs := b.config.portfolioRequirementsBySecurityType;
    if !striped {
      return Success(b.(targets := b.targets + Emitted(emit, root, reqs, includeIds, excludeIds)));
    }
    var targets := b.targets;
    var subset: RequirementsBySecurityType := map[];
    var stripes := GetStripes(reqs);
    var todo := stripes;
    while todo != {}
      invariant todo <= stripes && subset.Keys <= reqs.Keys
      invariant targets == b.targets + EmittedFor(emit, root, reqs, includeIds, excludeIds, stripes - todo)
      decreases |todo|
    {
      var stripe :| stripe in todo;
      subset := FillStripeSubset(reqs, stripe, subset);
      StripeEmitsItsShare(emit, root, reqs, includeIds, excludeIds, stripe);
      EmittedForUnion(emit, root, reqs, includeIds, excludeIds, stripes - todo, {stripe});
      assert stripes - (todo - {stripe}) == (stripes - todo) + {stripe};
      targets := targets + Emitted(emit, root, subset, includeIds, excludeIds);
      todo := todo - {stripe};
    }
    assert stripes - todo == stripes;
    StripesCoverAll(emit, root, reqs, includeIds, excludeIds);
    return Success(b.(targets := targets));
  }

  // ------------------------------------------------ incremental terminal filter

  /** removeTerminalOutputs: the requirements leave the value's entry; an entry left empty is dropped. */
  function RemoveTerminalOutputs(terminals: Terminals, reqs: set<ValueRequirement>, spec: ValueSpec): Terminals
  {
    if spec !in terminals then terminals
    else if terminals[spec] - reqs == {} then terminals - {spec}
    else terminals[spec := terminals[spec] - reqs]
  }

  /** The terminal outputs on targets outside the portfolio that satisfy some non-specific requirement. */
  function Unmatched(terminals: Terminals, portfolioIds: set<UniqueId>, specifics: set<ValueRequirement>): set<ValueSpec>
  {
    set s | s in terminals && s.targetId !in portfolioIds && !(terminals[s] <= specifics)
  }

  /** The terminals once the entries in `done` have lost their non-specific requirements. */
  function KeepSpecific(terminals: Terminals, specifics: set<ValueRequirement>, done: set<ValueSpec>): Terminals
  {
    map s | s in terminals && (s !in done || terminals[s] * specifics != {}) ::
      if s in done then terminals[s] * specifics else terminals[s]
  }

  /**
   * The effect of the incremental terminal filter: terminal outputs on
   * portfolio targets are kept as they are; any other terminal output keeps
   * only the specific requirements it satisfies and disappears when none is
   * left.
   */
  function FilteredTerminals(terminals: Terminals, portfolioIds: set<UniqueId>, specifics: set<ValueRequirement>): Terminals
  {
    KeepSpecific(terminals, specifics, Unmatched(terminals, portfolioIds, specifics))
  }

  lemma RemoveOneUnmatched(terminals: Terminals, specifics: set<ValueRequirement>, done: set<ValueSpec>, spec: ValueSpec)
    requires spec in terminals && spec !in done
    ensures RemoveTerminalOutputs(KeepSpecific(terminals, specifics, done), terminals[spec] - specifics, spec)
         == KeepSpecific(terminals, specifics, done + {spec})
  {
    var before := KeepSpecific(terminals, specifics, done);
    assert before[spec] == terminals[spec];
    assert terminals[spec] - (terminals[spec] - specifics) == terminals[spec] * specifics;
  }

  /**
   * The filter applied by the incremental compile to a reused graph: the
   * unmatched outputs are collected first, with the requirements each is to
   * lose, and removed afterwards, last collected first.
   */
  method RemoveUnmatchedTerminals(terminals: Terminals, portfolioIds: set<UniqueId>, specifics: set<ValueRequirement>)
    returns (r: Terminals)
    ensures r == FilteredTerminals(terminals, portfolioIds, specifics)
  {
    var removeSpecs: seq<ValueSpec> := [];
    var removeReqs: seq<set<ValueRequirement>> := [];
    var todo := terminals.Keys;
    while todo != {}
      invariant todo <= terminals.Keys
      invariant |removeReqs| == |removeSpecs|
      invariant forall j, k :: 0 <= j < k < |removeSpecs| ==> removeSpecs[j] != removeSpecs[k]
      invariant forall j :: 0 <= j < |removeSpecs| ==>
                  removeSpecs[j] in terminals && removeReqs[j] == terminals[removeSpecs[j]] - specifics
      invariant forall x :: x in removeSpecs <==> x in Unmatched(terminals, portfolioIds, specifics) && x !in todo
      decreases |todo|
    {
      var spec :| spec in todo;
      todo := todo - {spec};
      if spec.targetId !in portfolioIds {
        var toRemove := terminals[spec] - specifics;
        if toRemove != {} {
          assert spec in Unmatched(terminals, portfolioIds, specifics);
          removeSpecs := removeSpecs + [spec];
          removeReqs := removeReqs + [toRemove];
        } else {
          forall q | q in terminals[spec]
            ensures q in specifics
          {
            assert q !in toRemove;
          }
        }
      }
    }
    assert Elements(removeSpecs) == Unmatched(terminals, portfolioIds, specifics);
    r := terminals;
    var i := |removeSpecs|;
    assert KeepSpecific(terminals, specifics, {}) == terminals;
    while i > 0
      invariant 0 <= i <= |removeSpecs|
      invariant r == KeepSpecific(terminals, specifics, Elements(removeSpecs[i..]))
      decreases i
    {
      i := i - 1;
      ghost var done := Elements(removeSpecs[i + 1..]);
      assert removeSpecs[i..] == [removeSpecs[i]] + removeSpecs[i + 1..];
      assert (Elements(removeSpecs[i..])) == done + {removeSpecs[i]};
      RemoveOneUnmatched(terminals, specifics, done, removeSpecs[i]);
      r := RemoveTerminalOutputs(r, removeReqs[i], removeSpecs[i]);
    }
    assert removeSpecs[0..] == removeSpecs;
  }

  function Elements<T>(s: seq<T>): set<T>
  {
    set x | x in s
  }

  /** Terminal outputs on portfolio targets pass the filter untouched. */
  lemma FilterKeepsPortfolioTerminals(terminals: Terminals, portfolioIds: set<UniqueId>, specifics: set<ValueRequirement>, s: ValueSpec)
    requires s in terminals && s.targetId in portfolioIds
    ensures s in FilteredTerminals(terminals, portfolioIds, specifics)
    ensures FilteredTerminals(terminals, portfolioIds, specifics)[s] == terminals[s]
  {
  }

  /**
   * The filter removes only non-specific requirements, keeps every specific
   * one, and leaves no output outside the portfolio that satisfies a
   * non-specific requirement.
   */
  lemma FilterRemovesOnlyNonSpecific(terminals: Terminals, portfolioIds: set<UniqueId>, specifics: set<ValueRequirement>)
    ensures var r := FilteredTerminals(terminals, portfolioIds, specifics);
      && r.Keys <= terminals.Keys
      && (forall s :: s in r ==> r[s] <= terminals[s] && (terminals[s] - r[s]) * specifics == {})
      && (forall s, q :: s in terminals && q in terminals[s] && q in specifics ==> s in r && q in r[s])
      && (forall s :: s in r && s.targetId !in portfolioIds ==> r[s] <= specifics)
  {
    var r := FilteredTerminals(terminals, portfolioIds, specifics);
    forall s, q | s in terminals && q in terminals[s] && q in specifics
      ensures s in r && q in r[s]
    {
      assert q in terminals[s] * specifics;
    }
  }

  /** Filtering a second time changes nothing. */
  lemma FilterIdempotent(terminals: Terminals, portfolioIds: set<UniqueId>, specifics: set<ValueRequirement>)
    ensures FilteredTerminals(FilteredTerminals(terminals, portfolioIds, specifics), portfolioIds, specifics)
         == FilteredTerminals(terminals, portfolioIds, specifics)
  {
    var once := FilteredTerminals(terminals, portfolioIds, specifics);
    assert Unmatched(once, portfolioIds, specifics) == {};
    assert KeepSpecific(once, specifics, {}) == once;
  }

  // ------------------------------------------------------- per-builder compile

  /** Which compilation a task performs; the incremental one carries the two portfolio deltas. */
  datatype Mode =
    | FullCompilation
    | IncrementalCompilation(changedPositions: Option<set<UniqueId>>, unchangedNodes: Option<set<UniqueId>>)

  /** The previous graphs an incremental compile reuses, with the requirements still to resolve into each. */
  type PreviousGraphs = map<string, (Graph, set<ValueRequirement>)>

  /**
   * An incremental builder after taking over its configuration's previous
   * graph: when the builder has a portfolio, the unmatched terminal outputs
   * are filtered out of the graph first; pending requirements become
   * targets.
   */
  function ReusedBuilder(b: Builder, previous: PreviousGraphs): Builder
  {
    if b.config.name !in previous then b
    else
      var graph := previous[b.config.name].0;
      var pending := previous[b.config.name].1;
      var filtered :=
        if b.portfolio.Some? then
          graph.(terminals := FilteredTerminals(graph.terminals, AllIdentifiers(b.portfolio.value.rootNode), b.config.specificRequirements))
        else graph;
      b.(graph := filtered, targets := b.targets + pending)
  }

  /** The incremental portfolio delta: unchanged nodes take precedence over changed positions; with neither nothing is added. */
  function DeltaRequirements(emit: Emitter, changedPositions: Option<set<UniqueId>>, unchangedNodes: Option<set<UniqueId>>, b: Builder)
    : Result<Builder, CompileFailure>
  {
    if unchangedNodes.Some? then WithPortfolioRequirements(emit, b, None, unchangedNodes)
    else if changedPositions.Some? then WithPortfolioRequirements(emit, b, changedPositions, None)
    else Success(b)
  }

  /** compile(builder) of either task. */
  function CompiledBuilder(emit: Emitter, model: ResultModelDefinition, mode: Mode, b: Builder, previous: PreviousGraphs)
    : Result<Builder, CompileFailure>
  {
    match mode
    case FullCompilation =>
      WithPortfolioRequirements(emit, b.(targets := b.targets + SpecificTargets(model, b.config)), None, None)
    case IncrementalCompilation(changedIds, unchangedIds) =>
      DeltaRequirements(emit, changedIds, unchangedIds, ReusedBuilder(b, previous))
  }

  /**
   * The incremental strategy: a builder takes over its configuration's
   * previous graph and pending requirements; the unchanged-node set, when
   * given, decides the portfolio delta whatever the changed-position set is;
   * with neither set no portfolio requirements are added.
   */
  lemma IncrementalStrategy(emit: Emitter, model: ResultModelDefinition, changedIds: Option<set<UniqueId>>,
                            unchangedIds: Option<set<UniqueId>>, b: Builder, previous: PreviousGraphs)
    ensures var r := CompiledBuilder(emit, model, IncrementalCompilation(changedIds, unchangedIds), b, previous);
      && (unchangedIds.Some? ==> r == CompiledBuilder(emit, model, IncrementalCompilation(None, unchangedIds), b, previous))
      && (changedIds.None? && unchangedIds.None? ==> r == Success(ReusedBuilder(b, previous)))
      && (r.Success? ==>
            && r.value.config == b.config && r.value.portfolio == b.portfolio
            && b.targets + (if b.config.name in previous then previous[b.config.name].1 else {}) <= r.value.targets
            && (b.config.name in previous ==>
                  && r.value.graph.config == previous[b.config.name].0.config
                  && r.value.graph.targets == previous[b.config.name].0.targets
                  && (b.portfolio.None? ==> r.value.graph == previous[b.config.name].0)))
  {
  }

  /** The previous graphs left once a builder has taken its own. */
  function PreviousAfter(mode: Mode, b: Builder, previous: PreviousGraphs): PreviousGraphs
  {
    if mode.IncrementalCompilation? then previous - {b.config.name} else previous
  }

  /** The graph a builder hands over: its built graph with unnecessary values removed. */
  function BuiltGraph(c: Collaborators, b: Builder): Graph
  {
    c.prune(c.build(b.graph, b.targets))
  }

  /** The outcome of the builder loop: graphs appended, builders left, previous graphs left, and the failure that ended it. */
  datatype CompileRun = CompileRun(graphs: seq<Graph>, remaining: seq<Builder>, previous: PreviousGraphs, failure: Option<CompileFailure>)

  /** The builder loop of compile(): builders in order, one graph each, stopping at the first failure. */
  function CompileAll(c: Collaborators, model: ResultModelDefinition, mode: Mode, builders: seq<Builder>, previous: PreviousGraphs)
    : (run: CompileRun)
    ensures run.failure.None? ==> run.remaining == [] && |run.graphs| == |builders|
    ensures run.failure.Some? ==> |run.graphs| < |builders| && run.remaining == builders[|run.graphs|..]
    decreases |builders|
  {
    if builders == [] then CompileRun([], [], previous, None)
    else
      var b := CompiledBuilder(c.emit, model, mode, builders[0], previous);
      var left := PreviousAfter(mode, builders[0], previous);
      if b.Failure? then CompileRun([], builders, left, Some(b.error))
      else
        var rest := CompileAll(c, model, mode, builders[1..], left);
        CompileRun([BuiltGraph(c, b.value)] + rest.graphs, rest.remaining, rest.previous, rest.failure)
  }

  function Prepended(graphs: seq<Graph>, run: CompileRun): CompileRun
  {
    run.(graphs := graphs + run.graphs)
  }

  lemma PrependedTwice(a: seq<Graph>, b: seq<Graph>, run: CompileRun)
    ensures Prepended(a, Prepended(b, run)) == Prepended(a + b, run)
  {
    assert a + (b + run.graphs) == (a + b) + run.graphs;
  }

  lemma CompileAllStep(c: Collaborators, model: ResultModelDefinition, mode: Mode, builders: seq<Builder>,
                       previous: PreviousGraphs, b: Builder)
    requires builders != [] && CompiledBuilder(c.emit, model, mode, builders[0], previous) == Success(b)
    ensures CompileAll(c, model, mode, builders, previous)
         == Prepended([BuiltGraph(c, b)], CompileAll(c, model, mode, builders[1..], PreviousAfter(mode, builders[0], previous)))
  {
  }

  lemma CompileAllStops(c: Collaborators, model: ResultModelDefinition, mode: Mode, builders: seq<Builder>,
                        previous: PreviousGraphs, e: CompileFailure)
    requires builders != [] && CompiledBuilder(c.emit, model, mode, builders[0], previous) == Failure(e)
    ensures CompileAll(c, model, mode, builders, previous) == CompileRun([], builders, PreviousAfter(mode, builders[0], previous), Some(e))
  {
  }

  // ---------------------------------------------------------------- revalidation

  /** A graph after the sub-graphing filter: kept when nothing was ejected, otherwise rebuilt from what is left plus what was ejected. */
  function Revalidated(c: Collaborators, graph: Graph, expired: set<UniqueId>): Graph
  {
    var filtered := c.subGraph(graph, expired).0;
    var missing := c.subGraph(graph, expired).1;
    if missing == {} then graph else c.build(filtered, missing)
  }

  /** One revalidation pass over every graph. */
  function RevalidationPass(c: Collaborators, graphs: seq<Graph>, expired: set<UniqueId>): (r: seq<Graph>)
    ensures |r| == |graphs|
    ensures forall i :: 0 <= i < |graphs| && c.subGraph(graphs[i], expired).1 == {} ==> r[i] == graphs[i]
    ensures forall i :: 0 <= i < |graphs| && c.subGraph(graphs[i], expired).1 != {} ==>
              r[i] == c.build(c.subGraph(graphs[i], expired).0, c.subGraph(graphs[i], expired).1)
  {
    seq(|graphs|, i requires 0 <= i < |graphs| => Revalidated(c, graphs[i], expired))
  }

  /** Revalidation passes, one per batch of expired resolutions, in order. */
  function RevalidatedAll(c: Collaborators, graphs: seq<Graph>, batches: seq<set<UniqueId>>): (r: seq<Graph>)
    ensures |r| == |graphs|
    decreases |batches|
  {
    if batches == [] then graphs else RevalidatedAll(c, RevalidationPass(c, graphs, batches[0]), batches[1..])
  }

  // ---------------------------------------------------------- resolution purge

  /** The ids a resolution may map to and survive: the portfolio's and every graph target's. */
  function ValidIdentifiers(portfolio: Option<Portfolio>, graphs: seq<Graph>): set<UniqueId>
  {
    (if portfolio.Some? then {portfolio.value.uniqueId} else {}) + (set i, id | 0 <= i < |graphs| && id in graphs[i].targets :: id)
  }

  /** The first half of removeUnusedResolutions: the portfolio's id and every target id of every graph. */
  method CollectValidIdentifiers(portfolio: Option<Portfolio>, graphs: seq<Graph>) returns (valid: set<UniqueId>)
    ensures valid == ValidIdentifiers(portfolio, graphs)
  {
    valid := if portfolio.Some? then {portfolio.value.uniqueId} else {};
    var i := 0;
    while i < |graphs|
      invariant 0 <= i <= |graphs|
      invariant valid == ValidIdentifiers(portfolio, graphs[..i])
    {
      ValidIdentifiersAppend(portfolio, graphs[..i], graphs[i]);
      assert graphs[..i + 1] == graphs[..i] + [graphs[i]];
      valid := valid + graphs[i].targets;
      i := i + 1;
    }
    assert graphs[..i] == graphs;
  }

  lemma ValidIdentifiersAppend(portfolio: Option<Portfolio>, graphs: seq<Graph>, g: Graph)
    ensures ValidIdentifiers(portfolio, graphs + [g]) == ValidIdentifiers(portfolio, graphs) + g.targets
  {
    var gs := graphs + [g];
    forall id | id in g.targets
      ensures id in ValidIdentifiers(portfolio, gs)
    {
      assert gs[|graphs|] == g;
    }
    forall id | id in ValidIdentifiers(portfolio, graphs)
      ensures id in ValidIdentifiers(portfolio, gs)
    {
      if id !in (if portfolio.Some? then {portfolio.value.uniqueId} else {}) {
        var i :| 0 <= i < |graphs| && id in graphs[i].targets;
        assert gs[i] == graphs[i];
      }
    }
    forall id | id in ValidIdentifiers(portfolio, gs)
      ensures id in ValidIdentifiers(portfolio, graphs) + g.targets
    {
      if id !in (if portfolio.Some? then {portfolio.value.uniqueId} else {}) {
        var i :| 0 <= i < |gs| && id in gs[i].targets;
        if i < |graphs| { assert gs[i] == graphs[i]; }
      }
    }
  }

  /** The resolutions kept: those of position references and those mapping to a valid id. */
  function Purged(resolutions: map<TargetReference, UniqueId>, valid: set<UniqueId>): map<TargetReference, UniqueId>
  {
    map k | k in resolutions && (k.targetType == PositionTarget || resolutions[k] in valid) :: resolutions[k]
  }

  /**
   * After the purge every resolution refers to a position or maps to a valid
   * id; no such resolution is lost, and no value changes.
   */
  lemma PurgedKeepsExactlyTheUsed(resolutions: map<TargetReference, UniqueId>, valid: set<UniqueId>)
    ensures var r := Purged(resolutions, valid);
      && r.Keys <= resolutions.Keys
      && (forall k :: k in r ==> r[k] == resolutions[k] && (k.targetType == PositionTarget || r[k] in valid))
      && (forall k :: k in resolutions && (k.targetType == PositionTarget || resolutions[k] in valid) ==> k in r)
  {
  }

  /** A second purge against the same ids changes nothing. */
  lemma PurgeIdempotent(resolutions: map<TargetReference, UniqueId>, valid: set<UniqueId>)
    ensures Purged(Purged(resolutions, valid), valid) == Purged(resolutions, valid)
  {
  }

  // ---------------------------------------------------------------- portfolio

  /** resolvePortfolio: the portfolio reference resolved to a specification, then to the portfolio. */
  function ResolvePortfolio(c: Collaborators, view: ViewDefinition): (r: Result<Portfolio, CompileFailure>)
    ensures view.portfolioId.None? ==> r == Failure(NoPortfolioReference)
    ensures view.portfolioId.Some? && c.specification(view.portfolioId.value).None? ==>
              r == Failure(PortfolioNotIdentified(view.portfolioId.value))
    ensures view.portfolioId.Some? && c.specification(view.portfolioId.value).Some? ==>
              var spec := c.specification(view.portfolioId.value).value;
              r == if c.resolve(spec).None? then Failure(PortfolioNotResolved(spec)) else Success(c.resolve(spec).value)
  {
    if view.portfolioId.None? then Failure(NoPortfolioReference)
    else
      var spec := c.specification(view.portfolioId.value);
      if spec.None? then Failure(PortfolioNotIdentified(view.portfolioId.value))
      else
        var target := c.resolve(spec.value);
        if target.None? then Failure(PortfolioNotResolved(spec.value)) else Success(target.value)
  }

  /** Some builder's configuration has portfolio requirements. */
  predicate NeedsPortfolio(builders: seq<Builder>)
  {
    exists i :: 0 <= i < |builders| && HasPortfolioRequirements(builders[i].config)
  }

  /** The builders once the portfolio is set on those whose configuration has portfolio requirements. */
  function WithPortfolio(builders: seq<Builder>, p: Portfolio): seq<Builder>
  {
    seq(|builders|, i requires 0 <= i < |builders| =>
      if HasPortfolioRequirements(builders[i].config) then builders[i].(portfolio := Some(p)) else builders[i])
  }

  /** putIfAbsent. */
  function PutIfAbsent(resolutions: map<TargetReference, UniqueId>, k: TargetReference, v: UniqueId): map<TargetReference, UniqueId>
  {
    if k in resolutions then resolutions else resolutions[k := v]
  }

  /** The outcome of the portfolio step of get(): the failure, if any, and the builders, portfolio and resolutions after it. */
  datatype PortfolioLink = PortfolioLink(failure: Option<CompileFailure>, builders: seq<Builder>, portfolio: Option<Portfolio>,
                                         resolutions: map<TargetReference, UniqueId>)

  /**
   * The portfolio step of get(): nothing happens without portfolio outputs or
   * a builder that needs the portfolio; otherwise the portfolio (resolved now
   * if not yet known) is set on every builder that needs it.
   */
  function LinkedPortfolio(c: Collaborators, view: ViewDefinition, portfolioOutputs: bool, builders: seq<Builder>,
                           portfolio: Option<Portfolio>, resolutions: map<TargetReference, UniqueId>): PortfolioLink
  {
    if !portfolioOutputs || !NeedsPortfolio(builders) then PortfolioLink(None, builders, portfolio, resolutions)
    else if portfolio.Some? then PortfolioLink(None, WithPortfolio(builders, portfolio.value), portfolio, resolutions)
    else
      var resolved := ResolvePortfolio(c, view);
      if resolved.Failure? then PortfolioLink(Some(resolved.error), builders, None, resolutions)
      else
        PortfolioLink(None, WithPortfolio(builders, resolved.value), Some(resolved.value),
                      PutIfAbsent(resolutions, TargetReference(PortfolioTarget, view.portfolioId.value), resolved.value.uniqueId))
  }

  /**
   * A successful portfolio step sets one portfolio on exactly the builders
   * that need it, leaves the others alone, and a second step changes nothing
   * (the portfolio is resolved at most once per task).
   */
  lemma LinkedPortfolioOnce(c: Collaborators, view: ViewDefinition, portfolioOutputs: bool, builders: seq<Builder>,
                            portfolio: Option<Portfolio>, resolutions: map<TargetReference, UniqueId>)
    ensures var link := LinkedPortfolio(c, view, portfolioOutputs, builders, portfolio, resolutions);
      && |link.builders| == |builders|
      && (link.failure.Some? ==> portfolioOutputs && NeedsPortfolio(builders) && portfolio.None?)
      && (link.failure.None? && portfolioOutputs && NeedsPortfolio(builders) ==> link.portfolio.Some?)
      && (link.failure.None? ==> forall i :: 0 <= i < |builders| ==>
            link.builders[i] == (if portfolioOutputs && HasPortfolioRequirements(builders[i].config)
                                 then builders[i].(portfolio := link.portfolio) else builders[i]))
      && (link.failure.None? ==>
            LinkedPortfolio(c, view, portfolioOutputs, link.builders, link.portfolio, link.resolutions) == link)
  {
  }

  /** The compiled view: the graphs, the resolutions kept and the portfolio. */
  datatype CompiledView = CompiledView(graphs: seq<Graph>, resolutions: map<TargetReference, UniqueId>, portfolio: Option<Portfolio>)

  /** A builder per calculation configuration, in order, each starting from an empty graph. */
  function InitialBuilders(view: ViewDefinition): (r: seq<Builder>)
    ensures |r| == |view.calcConfigs|
  {
    seq(|view.calcConfigs|, i requires 0 <= i < |view.calcConfigs| =>
      Builder(view.calcConfigs[i], Graph(view.calcConfigs[i].name, {}, map[]), {}, None))
  }

  // ------------------------------------------------------------ the task itself

  /** A compilation task (full or incremental) over its compilation context. */
  class CompilationTask {
    const view: ViewDefinition
    const collaborators: Collaborators
    const mode: Mode
    /** Whether portfolio requirements are added stripe by stripe (a process-wide switch). */
    const striped: bool
    /** Whether the result model outputs position or aggregate-position results. */
    const portfolioOutputs: bool

    var builders: seq<Builder>
    var graphs: seq<Graph>
    var activeResolutions: map<TargetReference, UniqueId>
    var previousGraphs: PreviousGraphs
    /** The batches of resolutions the context will report as expired, in order. */
    var expiredBatches: seq<set<UniqueId>>
    var portfolio: Option<Portfolio>
    /** How many times the portfolio has been resolved. */
    var portfolioResolutions: nat
    var result: Option<CompiledView>

    ghost predicate Valid()
      reads this
    {
      && portfolioOutputs == HasPortfolioOutput(view)
      && (portfolio.Some? <==> portfolioResolutions == 1)
      && portfolioResolutions <= 1
    }

    /** fullCompileTask: a fresh resolution map and no previous graphs. */
    constructor Full(view: ViewDefinition, collaborators: Collaborators, striped: bool)
      ensures Valid()
      ensures this.view == view && this.collaborators == collaborators && this.striped == striped
      ensures mode == FullCompilation
      ensures builders == InitialBuilders(view) && graphs == [] && activeResolutions == map[]
      ensures previousGraphs == map[] && expiredBatches == [] && portfolio == None && result == None
    {
      this.view := view;
      this.collaborators := collaborators;
      this.mode := FullCompilation;
      this.striped := striped;
      this.portfolioOutputs := HasPortfolioOutput(view);
      builders := InitialBuilders(view);
      graphs := [];
      activeResolutions := map[];
      previousGraphs := map[];
      expiredBatches := [];
      portfolio := None;
      portfolioResolutions := 0;
      result := None;
    }

    /** incrementalCompileTask: reuses previous graphs and the caller's resolution map. */
    constructor Incremental(view: ViewDefinition, collaborators: Collaborators, striped: bool,
                            previousGraphs: PreviousGraphs, resolutions: map<TargetReference, UniqueId>,
                            changedPositions: Option<set<UniqueId>>, unchangedNodes: Option<set<UniqueId>>,
                            expiredBatches: seq<set<UniqueId>>)
      ensures Valid()
      ensures this.view == view && this.collaborators == collaborators && this.striped == striped
      ensures mode == IncrementalCompilation(changedPositions, unchangedNodes)
      ensures builders == InitialBuilders(view) && graphs == [] && activeResolutions == resolutions
      ensures this.previousGraphs == previousGraphs && this.expiredBatches == expiredBatches
      ensures portfolio == None && result == None
    {
      this.view := view;
      this.collaborators := collaborators;
      this.mode := IncrementalCompilation(changedPositions, unchangedNodes);
      this.striped := striped;
      this.portfolioOutputs := HasPortfolioOutput(view);
      builders := InitialBuilders(view);
      graphs := [];
      activeResolutions := resolutions;
      this.previousGraphs := previousGraphs;
      this.expiredBatches := expiredBatches;
      portfolio := None;
      portfolioResolutions := 0;
      result := None;
    }

    /** compile(builder): the full or incremental work for one builder. */
    method CompileBuilder(b: Builder) returns (r: Result<Builder, CompileFailure>)
      modifies this
      ensures r == CompiledBuilder(collaborators.emit, view.resultModel, mode, b, old(previousGraphs))
      ensures previousGraphs == PreviousAfter(mode, b, old(previousGraphs))
      ensures builders == old(builders) && graphs == old(graphs) && Untouched() == old(Untouched())
    {
      match mode
      case FullCompilation =>
        var withSpecifics := AddSpecificRequirements(b, view.resultModel);
        r := AddPortfolioRequirements(collaborators.emit, striped, withSpecifics, None, None);
      case IncrementalCompilation(changedIds, unchangedIds) =>
        var reused := b;
        if b.config.name in previousGraphs {
          var graph := previousGraphs[b.config.name].0;
          var pending := previousGraphs[b.config.name].1;
          previousGraphs := previousGraphs - {b.config.name};
          if b.portfolio.Some? {
            // the identifier gatherer's walk of the portfolio
            var identifiers := AllIdentifiers(b.portfolio.value.rootNode);
            var terminals := RemoveUnmatchedTerminals(graph.terminals, identifiers, b.config.specificRequirements);
            graph := graph.(terminals := terminals);
          }
          reused := reused.(graph := graph);
          if pending != {} {
            reused := reused.(targets := reused.targets + pending);
          }
        } else {
          previousGraphs := previousGraphs - {b.config.name};
        }
        assert reused == ReusedBuilder(b, old(previousGraphs));
        if unchangedIds.Some? {
          r := AddPortfolioRequirements(collaborators.emit, striped, reused, None, unchangedIds);
        } else if changedIds.Some? {
          r := AddPortfolioRequirements(collaborators.emit, striped, reused, changedIds, None);
        } else {
          r := Success(reused);
        }
    }

    /** What the builder loop leaves alone: the resolutions, the expired batches, the portfolio and the result. */
    ghost function Untouched(): (map<TargetReference, UniqueId>, seq<set<UniqueId>>, Option<Portfolio>, nat, Option<CompiledView>)
      reads this
    {
      (activeResolutions, expiredBatches, portfolio, portfolioResolutions, result)
    }

    /**
     * The builder loop of compile(): compiles each builder in order, hands
     * its pruned graph to the context and removes it, stopping at the first
     * failure. Afterwards no builder is left unless one failed.
     */
    method CompileBuilders() returns (failure: Option<CompileFailure>)
      modifies this
      ensures var run := CompileAll(collaborators, view.resultModel, mode, old(builders), old(previousGraphs));
        && graphs == old(graphs) + run.graphs && builders == run.remaining
        && previousGraphs == run.previous && failure == run.failure
      ensures Untouched() == old(Untouched())
    {
      ghost var whole := CompileAll(collaborators, view.resultModel, mode, builders, previousGraphs);
      ghost var start := graphs;
      ghost var done: seq<Graph> := [];
      assert whole == Prepended(done, whole) by {
        assert done + whole.graphs == whole.graphs;
      }
      while builders != []
        invariant graphs == start + done
        invariant whole == Prepended(done, CompileAll(collaborators, view.resultModel, mode, builders, previousGraphs))
        invariant Untouched() == old(Untouched())
        decreases |builders|
      {
        ghost var graph;
        failure, graph := CompileNext();
        if failure.Some? {
          return;
        }
        PrependedTwice(done, [graph], CompileAll(collaborators, view.resultModel, mode, builders, previousGraphs));
        done := done + [graph];
      }
      return None;
    }

    /** One iteration of the builder loop: compiles the first builder and, unless that fails, hands over its graph and removes it. */
    method CompileNext() returns (failure: Option<CompileFailure>, ghost graph: Graph)
      requires builders != []
      modifies this
      ensures failure.Some? ==>
        && CompileAll(collaborators, view.resultModel, mode, old(builders), old(previousGraphs))
           == CompileRun([], old(builders), previousGraphs, failure)
        && graphs == old(graphs) && builders == old(builders)
      ensures failure.None? ==>
        && graphs == old(graphs) + [graph] && builders == old(builders)[1..]
        && CompileAll(collaborators, view.resultModel, mode, old(builders), old(previousGraphs))
           == Prepended([graph], CompileAll(collaborators, view.resultModel, mode, builders, previousGraphs))
      ensures Untouched() == old(Untouched())
    {
      var b := CompileBuilder(builders[0]);
      if b.Failure? {
        CompileAllStops(collaborators, view.resultModel, mode, old(builders), old(previousGraphs), b.error);
        return Some(b.error), builders[0].graph;
      }
      CompileAllStep(collaborators, view.resultModel, mode, old(builders), old(previousGraphs), b.value);
      var built := BuiltGraph(collaborators, b.value);
      graph := built;
      graphs := graphs + [built];
      builders := builders[1..];
      return None, graph;
    }

    /** One revalidation pass: every graph is passed through the sub-graphing filter and kept or rebuilt. */
    method Revalidate(expired: set<UniqueId>)
      modifies this
      ensures graphs == RevalidationPass(collaborators, old(graphs), expired)
      ensures builders == old(builders) && activeResolutions == old(activeResolutions) && previousGraphs == old(previousGraphs)
      ensures expiredBatches == old(expiredBatches) && portfolio == old(portfolio)
      ensures portfolioResolutions == old(portfolioResolutions) && result == old(result)
    {
      var previous := graphs;
      graphs := [];
      var i := 0;
      while i < |previous|
        invariant 0 <= i <= |previous|
        invariant graphs == RevalidationPass(collaborators, previous[..i], expired)
        invariant builders == old(builders) && activeResolutions == old(activeResolutions) && previousGraphs == old(previousGraphs)
        invariant expiredBatches == old(expiredBatches) && portfolio == old(portfolio)
        invariant portfolioResolutions == old(portfolioResolutions) && result == old(result)
      {
        var ejected := collaborators.subGraph(previous[i], expired);
        var filtered, missing := ejected.0, ejected.1;
        if missing == {} {
          graphs := graphs + [previous[i]];
        } else {
          // a new builder for the graph's configuration starts from the filtered graph and resolves what was ejected
          graphs := graphs + [collaborators.build(filtered, missing)];
        }
        assert previous[..i + 1] == previous[..i] + [previous[i]];
        i := i + 1;
      }
      assert previous[..i] == previous;
    }

    /**
     * compile() of either task. The incremental one then revalidates the
     * graphs once per batch of expired resolutions, until none is left.
     */
    method Compile() returns (failure: Option<CompileFailure>)
      modifies this
      ensures var run := CompileAll(collaborators, view.resultModel, mode, old(builders), old(previousGraphs));
        && builders == run.remaining && previousGraphs == run.previous && failure == run.failure
        && graphs == (if failure.None? && mode.IncrementalCompilation?
                      then RevalidatedAll(collaborators, old(graphs) + run.graphs, old(expiredBatches))
                      else old(graphs) + run.graphs)
        && expiredBatches == (if failure.None? && mode.IncrementalCompilation? then [] else old(expiredBatches))
      ensures activeResolutions == old(activeResolutions)
      ensures portfolio == old(portfolio) && portfolioResolutions == old(portfolioResolutions) && result == old(result)
    {
      failure := CompileBuilders();
      if failure.Some? || mode.FullCompilation? {
        return;
      }
      ghost var compiled := graphs;
      while expiredBatches != []
        invariant RevalidatedAll(collaborators, graphs, expiredBatches) == RevalidatedAll(collaborators, compiled, old(expiredBatches))
        invariant builders == [] && activeResolutions == old(activeResolutions)
        invariant portfolio == old(portfolio) && portfolioResolutions == old(portfolioResolutions) && result == old(result)
        invariant previousGraphs == CompileAll(collaborators, view.resultModel, mode, old(builders), old(previousGraphs)).previous
        decreases |expiredBatches|
      {
        var expired := expiredBatches[0];
        expiredBatches := expiredBatches[1..];
        Revalidate(expired);
      }
    }

    /**
     * removeUnusedResolutions: gathers the valid ids (the portfolio's and
     * every graph target's), then deletes every resolution that refers to
     * neither a position nor a valid id.
     */
    method RemoveUnusedResolutions()
      modifies this
      ensures activeResolutions == Purged(old(activeResolutions), ValidIdentifiers(portfolio, graphs))
      ensures builders == old(builders) && graphs == old(graphs) && previousGraphs == old(previousGraphs)
      ensures expiredBatches == old(expiredBatches) && portfolio == old(portfolio)
      ensures portfolioResolutions == old(portfolioResolutions) && result == old(result)
    {
      var valid := CollectValidIdentifiers(portfolio, graphs);
      var todo := activeResolutions.Keys;
      ghost var resolutions := activeResolutions;
      while todo != {}
        invariant todo <= resolutions.Keys
        invariant activeResolutions.Keys <= resolutions.Keys
        invariant forall k :: k in activeResolutions ==> activeResolutions[k] == resolutions[k]
        invariant forall k :: k in todo ==> k in activeResolutions
        invariant forall k :: k in resolutions && k !in todo ==>
                    (k in activeResolutions <==> k.targetType == PositionTarget || resolutions[k] in valid)
        invariant builders == old(builders) && graphs == old(graphs) && previousGraphs == old(previousGraphs)
        invariant expiredBatches == old(expiredBatches) && portfolio == old(portfolio)
        invariant portfolioResolutions == old(portfolioResolutions) && result == old(result)
        decreases |todo|
      {
        var k :| k in todo;
        todo := todo - {k};
        if k.targetType == PositionTarget || activeResolutions[k] in valid {
          continue;
        }
        activeResolutions := activeResolutions - {k};
      }
      assert activeResolutions == Purged(resolutions, valid) by {
        forall k | k in activeResolutions
          ensures k in Purged(resolutions, valid)
        {
        }
      }
    }

    /**
     * The portfolio step of get(): when portfolio outputs are on, the first
     * builder whose configuration has portfolio requirements causes the
     * portfolio to be resolved (once per task) and its resolution to be
     * recorded if absent; every such builder gets the portfolio.
     */
    method SetPortfolioOnBuilders() returns (failure: Option<CompileFailure>)
      requires Valid()
      modifies this
      ensures Valid()
      ensures !portfolioOutputs || !NeedsPortfolio(old(builders)) ==>
        failure == None && builders == old(builders) && portfolio == old(portfolio)
        && activeResolutions == old(activeResolutions) && portfolioResolutions == old(portfolioResolutions)
      ensures portfolioOutputs && NeedsPortfolio(old(builders)) && old(portfolio).Some? ==>
        failure == None && builders == WithPortfolio(old(builders), old(portfolio).value) && portfolio == old(portfolio)
        && activeResolutions == old(activeResolutions) && portfolioResolutions == old(portfolioResolutions)
      ensures portfolioOutputs && NeedsPortfolio(old(builders)) && old(portfolio).None? ==>
        var resolved := ResolvePortfolio(collaborators, view);
        if resolved.Failure? then
          failure == Some(resolved.error) && builders == old(builders) && portfolio == None
          && activeResolutions == old(activeResolutions) && portfolioResolutions == old(portfolioResolutions)
        else
          failure == None && portfolio == Some(resolved.value) && builders == WithPortfolio(old(builders), resolved.value)
          && activeResolutions == PutIfAbsent(old(activeResolutions), TargetReference(PortfolioTarget, view.portfolioId.value), resolved.value.uniqueId)
          && portfolioResolutions == 1
      ensures graphs == old(graphs) && previousGraphs == old(previousGraphs) && expiredBatches == old(expiredBatches)
      ensures result == old(result)
    {
      if !portfolioOutputs {
        return None;
      }
      var linked, chosen, resolutions, count := builders, portfolio, activeResolutions, portfolioResolutions;
      var i := 0;
      while i < |linked|
        invariant 0 <= i <= |linked| && |linked| == |old(builders)|
        invariant NeedsPortfolio(old(builders)[..i]) ==> chosen.Some?
        invariant !NeedsPortfolio(old(builders)[..i]) || old(portfolio).Some? ==>
          chosen == old(portfolio) && resolutions == old(activeResolutions) && count == old(portfolioResolutions)
        invariant old(portfolio).None? && NeedsPortfolio(old(builders)[..i]) ==>
          && var resolved := ResolvePortfolio(collaborators, view);
          && resolved.Success? && chosen == Some(resolved.value) && count == 1
          && resolutions == PutIfAbsent(old(activeResolutions), TargetReference(PortfolioTarget, view.portfolioId.value), resolved.value.uniqueId)
        invariant chosen.Some? ==> linked[..i] == WithPortfolio(old(builders)[..i], chosen.value)
        invariant !NeedsPortfolio(old(builders)[..i]) ==> linked[..i] == old(builders)[..i]
        invariant linked[i..] == old(builders)[i..]
      {
        assert old(builders)[..i + 1] == old(builders)[..i] + [old(builders)[i]];
        if HasPortfolioRequirements(linked[i].config) {
          if chosen.None? {
            var resolved := ResolvePortfolio(collaborators, view);
            if resolved.Failure? {
              return Some(resolved.error);
            }
            chosen := Some(resolved.value);
            count := count + 1;
            resolutions := PutIfAbsent(resolutions, TargetReference(PortfolioTarget, view.portfolioId.value), resolved.value.uniqueId);
          }
          linked := linked[i := linked[i].(portfolio := chosen)];
        }
        i := i + 1;
      }
      assert linked[..i] == linked && old(builders)[..i] == old(builders);
      builders, portfolio, activeResolutions, portfolioResolutions := linked, chosen, resolutions, count;
      return None;
    }

    /**
     * get(): sets the portfolio on the builders that need it, compiles, purges
     * the resolutions no graph uses and produces the compiled view.
     */
    method Get() returns (r: Result<CompiledView, CompileFailure>)
      requires Valid()
      modifies this
      ensures Valid()
      ensures old(portfolio).Some? ==> portfolio == old(portfolio) && portfolioResolutions == old(portfolioResolutions)
      ensures !portfolioOutputs ==> portfolio == old(portfolio) && portfolioResolutions == old(portfolioResolutions)
      ensures r.Success? ==>
        && builders == []
        && |graphs| == |old(graphs)| + |old(builders)|
        && r.value == CompiledView(graphs, activeResolutions, portfolio) && result == Some(r.value)
        && activeResolutions == Purged(activeResolutions, ValidIdentifiers(portfolio, graphs))
        && (forall k :: k in activeResolutions ==>
              k.targetType == PositionTarget || activeResolutions[k] in ValidIdentifiers(portfolio, graphs))
      ensures r.Failure? ==> result == old(result)
      ensures var link := LinkedPortfolio(collaborators, view, portfolioOutputs, old(builders), old(portfolio), old(activeResolutions));
        var run := CompileAll(collaborators, view.resultModel, mode, link.builders, old(previousGraphs));
        if link.failure.Some? then r == Failure(link.failure.value)
        else if run.failure.Some? then r == Failure(run.failure.value)
        else
          && r.Success? && portfolio == link.portfolio
          && graphs == (if mode.IncrementalCompilation? then RevalidatedAll(collaborators, old(graphs) + run.graphs, old(expiredBatches))
                        else old(graphs) + run.graphs)
          && activeResolutions == Purged(link.resolutions, ValidIdentifiers(portfolio, graphs))
    {
      var failure := SetPortfolioOnBuilders();
      if failure.Some? {
        return Failure(failure.value);
      }
      ghost var linked := builders;
      failure := Compile();
      if failure.Some? {
        return Failure(failure.value);
      }
      RemoveUnusedResolutions();
      PurgeIdempotent(old(activeResolutions), ValidIdentifiers(portfolio, graphs));
      var compiled := CompiledView(graphs, activeResolutions, portfolio);
      result := Some(compiled);
      r := Success(compiled);
    }
  }
}
