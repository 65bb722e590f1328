/**
 * Portfolio structure shared by the two portfolio-compiling components:
 * positions held under a tree of portfolio nodes.
 */
module Portfolios {
  import opened Wrappers

  /** A unique identifier of a portfolio, node, position or security. */
  type UniqueId = nat

  /** The identifier bundle by which a position refers to its security before resolution. */
  type SecurityKey = string

  datatype Security = Security(uniqueId: UniqueId, securityType: string)

  /**
   * A position: a quantity of a security, given either resolved (`security`)
   * or by key (`securityKey`), and the node it sits under.
   */
  datatype Position = Position(
    uniqueId: UniqueId,
    quantity: int,
    securityKey: Option<SecurityKey>,
    security: Option<Security>,
    portfolioNode: Option<UniqueId>)

  datatype PortfolioNode = PortfolioNode(
    uniqueId: UniqueId,
    name: string,
    parentNode: Option<UniqueId>,
    positions: seq<Position>,
    childNodes: seq<PortfolioNode>)

  datatype Portfolio = Portfolio(uniqueId: UniqueId, name: string, rootNode: PortfolioNode)

  /** Every position of the subtree, in the order a depth-first walk meets them (own positions first). */
  function AllPositions(node: PortfolioNode): seq<Position>
    decreases node
  {
    node.positions + AllPositionsOfChildren(node.childNodes)
  }

  function AllPositionsOfChildren(children: seq<PortfolioNode>): seq<Position>
    decreases children
  {
    if children == [] then [] else AllPositions(children[0]) + AllPositionsOfChildren(children[1..])
  }

  /** The unique ids of every node and every position of the subtree. */
  function AllIdentifiers(node: PortfolioNode): set<UniqueId>
    decreases node
  {
    {node.uniqueId} + (set p | p in node.positions :: p.uniqueId) + IdentifiersOfChildren(node.childNodes)
  }

  function IdentifiersOfChildren(children: seq<PortfolioNode>): set<UniqueId>
    decreases children
  {
    if children == [] then {} else AllIdentifiers(children[0]) + IdentifiersOfChildren(children[1..])
  }
}

/**
 * View definitions as the compilers read them: calculation configurations,
 * the value requirements they ask for and the result model's output modes.
 */
module Views {
  import opened Wrappers
  import opened Portfolios

  /** The kinds of computation target a requirement or a resolution can refer to. */
  datatype TargetType = Primitive | SecurityTarget | PositionTarget | TradeTarget | PortfolioNodeTarget | PortfolioTarget

  datatype ResultOutputMode = NoOutput | TerminalOutputs | AllOutputs

  /** A reference to a computation target, before it is resolved to a unique id. */
  datatype TargetReference = TargetReference(targetType: TargetType, id: UniqueId)

  /** A requested output: a value name on a target, with constraints (kept abstract). */
  datatype ValueRequirement = ValueRequirement(valueName: string, target: TargetReference, constraints: string)

  /** A portfolio requirement template: a value name and its properties. */
  datatype OutputTemplate = OutputTemplate(valueName: string, properties: string)

  /**
   * The output mode chosen for each target type. A type the table does not
   * mention is not output.
   */
  datatype ResultModelDefinition = ResultModelDefinition(modes: map<TargetType, ResultOutputMode>)

  function OutputMode(model: ResultModelDefinition, t: TargetType): ResultOutputMode
  {
    if t in model.modes then model.modes[t] else NoOutput
  }

  function PositionOutputMode(model: ResultModelDefinition): ResultOutputMode
  {
    OutputMode(model, PositionTarget)
  }

  function AggregatePositionOutputMode(model: ResultModelDefinition): ResultOutputMode
  {
    OutputMode(model, PortfolioNodeTarget)
  }

  /**
   * A calculation configuration: its explicit requirements and its portfolio
   * requirement templates, keyed by security type.
   */
  datatype CalcConfig = CalcConfig(
    name: string,
    specificRequirements: set<ValueRequirement>,
    portfolioRequirementsBySecurityType: map<string, set<OutputTemplate>>)

  /** getAllPortfolioRequirements: every (security type, template) pair of the configuration. */
  function AllPortfolioRequirements(config: CalcConfig): set<(string, OutputTemplate)>
  {
    set t, o | t in config.portfolioRequirementsBySecurityType && o in config.portfolioRequirementsBySecurityType[t] :: (t, o)
  }

  function HasPortfolioRequirements(config: CalcConfig): bool
  {
    exists t :: t in config.portfolioRequirementsBySecurityType && config.portfolioRequirementsBySecurityType[t] != {}
  }

  lemma PortfolioRequirementsEmptyIff(config: CalcConfig)
    ensures AllPortfolioRequirements(config) == {} <==> !HasPortfolioRequirements(config)
  {
    if HasPortfolioRequirements(config) {
      var t :| t in config.portfolioRequirementsBySecurityType && config.portfolioRequirementsBySecurityType[t] != {};
      var o :| o in config.portfolioRequirementsBySecurityType[t];
      assert (t, o) in AllPortfolioRequirements(config);
    }
  }

  datatype ViewDefinition = ViewDefinition(
    name: string,
    portfolioId: Option<UniqueId>,
    resultModel: ResultModelDefinition,
    calcConfigs: seq<CalcConfig>)

  /** hasPortfolioOutput / isPortfolioOutputs: position or aggregate-position results are output. */
  function HasPortfolioOutput(view: ViewDefinition): bool
  {
    PositionOutputMode(view.resultModel) != NoOutput || AggregatePositionOutputMode(view.resultModel) != NoOutput
  }
}
