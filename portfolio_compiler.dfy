/**
 * Portfolio resolution during view compilation (PortfolioCompiler): decides
 * whether the portfolio is needed at all, fetches it at most once, collects
 * the security keys still to resolve, and builds a copy of the portfolio tree
 * in which every position carries its security.
 */
module PortfolioCompilation {
  import opened Wrappers
  import opened Portfolios
  import opened Views

  /** The exceptions raised while fetching and resolving the portfolio. */
  datatype CompileError =
    | NoPortfolioReference                    // the view has portfolio outputs but no portfolio id
    | NoPositionSource                        // the compiler was given no position source
    | PortfolioNotFound(portfolioId: UniqueId) // the position source does not know the portfolio
    | NoSecurityOrKey(positionId: UniqueId)   // a position with neither a security nor a key
    | SecuritiesNotResolved                   // the security resolver failed
    | SecurityNotResolved(positionId: UniqueId) // no security for a position's key

  /** A position source, as far as this component uses it: portfolio lookup by id. */
  type PositionSource = map<UniqueId, Portfolio>

  /** The security resolver: resolves a set of keys in one step, or fails. */
  type SecurityResolver = set<SecurityKey> -> Option<map<SecurityKey, Security>>

  // ------------------------------------------------------------ security keys

  predicate HasSecurityOrKey(p: Position)
  {
    p.security.Some? || p.securityKey.Some?
  }

  /** The keys of the positions that have no pre-resolved security. */
  function KeysToResolve(ps: seq<Position>): set<SecurityKey>
  {
    set p | p in ps && p.security.None? && p.securityKey.Some? :: p.securityKey.value
  }

  /** i is the first position of ps with neither a security nor a key. */
  ghost predicate FirstWithoutSecurityOrKey(ps: seq<Position>, i: int)
  {
    0 <= i < |ps| && !HasSecurityOrKey(ps[i]) && forall j :: 0 <= j < i ==> HasSecurityOrKey(ps[j])
  }

  /**
   * What collecting the keys of `ps` must give: the keys of exactly the
   * unresolved positions, or the error for the first position that has
   * neither a security nor a key.
   */
  ghost predicate KeysCollected(ps: seq<Position>, r: Result<set<SecurityKey>, CompileError>)
  {
    && (r.Success? <==> forall p :: p in ps ==> HasSecurityOrKey(p))
    && (r.Success? ==> r.value == KeysToResolve(ps))
    && (r.Failure? ==> exists i :: FirstWithoutSecurityOrKey(ps, i) && r.error == NoSecurityOrKey(ps[i].uniqueId))
  }

  function JoinKeys(first: Result<set<SecurityKey>, CompileError>, rest: Result<set<SecurityKey>, CompileError>)
    : Result<set<SecurityKey>, CompileError>
  {
    if first.Failure? then first
    else if rest.Failure? then rest
    else Success(first.value + rest.value)
  }

  lemma KeysCollectedAppend(a: seq<Position>, ra: Result<set<SecurityKey>, CompileError>,
                            b: seq<Position>, rb: Result<set<SecurityKey>, CompileError>)
    requires KeysCollected(a, ra) && KeysCollected(b, rb)
    ensures KeysCollected(a + b, JoinKeys(ra, rb))
  {
    var r := JoinKeys(ra, rb);
    if ra.Failure? {
      var i :| FirstWithoutSecurityOrKey(a, i) && ra.error == NoSecurityOrKey(a[i].uniqueId);
      assert FirstWithoutSecurityOrKey(a + b, i);
      assert !HasSecurityOrKey((a + b)[i]);
    } else if rb.Failure? {
      var i :| FirstWithoutSecurityOrKey(b, i) && rb.error == NoSecurityOrKey(b[i].uniqueId);
      assert (a + b)[|a| + i] == b[i];
      assert FirstWithoutSecurityOrKey(a + b, |a| + i);
    } else {
      assert KeysToResolve(a + b) == KeysToResolve(a) + KeysToResolve(b);
    }
  }

  function PositionKeys(ps: seq<Position>): (r: Result<set<SecurityKey>, CompileError>)
    ensures KeysCollected(ps, r)
  {
    if ps == [] then Success({})
    else
      var own: Result<set<SecurityKey>, CompileError> :=
        if !HasSecurityOrKey(ps[0]) then Failure(NoSecurityOrKey(ps[0].uniqueId))
        else if ps[0].security.Some? then Success({})
        else Success({ps[0].securityKey.value});
      var r := JoinKeys(own, PositionKeys(ps[1..]));
      assert KeysCollected([ps[0]], own) by {
        if own.Failure? { assert FirstWithoutSecurityOrKey([ps[0]], 0); }
      }
      KeysCollectedAppend([ps[0]], own, ps[1..], PositionKeys(ps[1..]));
      assert [ps[0]] + ps[1..] == ps;
      r
  }

  /**
   * getSecurityKeysForResolution: the security keys of exactly those
   * positions of the subtree that have no pre-resolved security; fails on the
   * first position (depth first) that has neither a security nor a key.
   */
  function SecurityKeysForResolution(node: PortfolioNode): (r: Result<set<SecurityKey>, CompileError>)
    ensures KeysCollected(AllPositions(node), r)
    decreases node
  {
    var own := PositionKeys(node.positions);
    var sub := ChildKeys(node.childNodes);
    KeysCollectedAppend(node.positions, own, AllPositionsOfChildren(node.childNodes), sub);
    JoinKeys(own, sub)
  }

  function ChildKeys(children: seq<PortfolioNode>): (r: Result<set<SecurityKey>, CompileError>)
    ensures KeysCollected(AllPositionsOfChildren(children), r)
    decreases children
  {
    if children == [] then Success({})
    else
      var first := SecurityKeysForResolution(children[0]);
      var rest := ChildKeys(children[1..]);
      KeysCollectedAppend(AllPositions(children[0]), first, AllPositionsOfChildren(children[1..]), rest);
      JoinKeys(first, rest)
  }

  // ------------------------------------------------------- the resolved copy

  /** The security a copied position gets: its own if pre-resolved, otherwise the one found for its key. */
  function SecurityChoice(p: Position, securitiesByKey: map<SecurityKey, Security>): Option<Security>
  {
    if p.security.Some? then p.security
    else if p.securityKey.Some? && p.securityKey.value in securitiesByKey then Some(securitiesByKey[p.securityKey.value])
    else None
  }

  /** i is the first position of ps for which no security can be found. */
  ghost predicate FirstUnresolvable(ps: seq<Position>, securitiesByKey: map<SecurityKey, Security>, i: int)
  {
    0 <= i < |ps| && SecurityChoice(ps[i], securitiesByKey).None?
    && forall j :: 0 <= j < i ==> SecurityChoice(ps[j], securitiesByKey).Some?
  }

  /** A copy fails exactly when some position of `ps` cannot be resolved, naming the first such position. */
  ghost predicate FailsOnFirstUnresolvable<T>(ps: seq<Position>, securitiesByKey: map<SecurityKey, Security>,
                                             r: Result<T, CompileError>)
  {
    && (r.Failure? <==> exists p :: p in ps && SecurityChoice(p, securitiesByKey).None?)
    && (r.Failure? ==> exists i :: FirstUnresolvable(ps, securitiesByKey, i) && r.error == SecurityNotResolved(ps[i].uniqueId))
  }

  lemma FailsOnFirstUnresolvableAppend<T, U, V>(a: seq<Position>, ra: Result<T, CompileError>,
                                                b: seq<Position>, rb: Result<U, CompileError>,
                                                securitiesByKey: map<SecurityKey, Security>, r: Result<V, CompileError>)
    requires FailsOnFirstUnresolvable(a, securitiesByKey, ra) && FailsOnFirstUnresolvable(b, securitiesByKey, rb)
    requires r.Failure? <==> ra.Failure? || rb.Failure?
    requires ra.Failure? ==> r.error == ra.error
    requires ra.Success? && rb.Failure? ==> r.error == rb.error
    ensures FailsOnFirstUnresolvable(a + b, securitiesByKey, r)
  {
    if ra.Failure? {
      var i :| FirstUnresolvable(a, securitiesByKey, i) && ra.error == SecurityNotResolved(a[i].uniqueId);
      assert FirstUnresolvable(a + b, securitiesByKey, i);
      assert (a + b)[i] in a + b;
    } else if rb.Failure? {
      var i :| FirstUnresolvable(b, securitiesByKey, i) && rb.error == SecurityNotResolved(b[i].uniqueId);
      assert (a + b)[|a| + i] == b[i];
      assert FirstUnresolvable(a + b, securitiesByKey, |a| + i);
    }
  }

  /** The shape of a portfolio tree: ids, names, positions without their resolution fields, children in order. */
  datatype Outline = Outline(id: UniqueId, name: string, positions: seq<Position>, children: seq<Outline>)

  function Unresolved(p: Position): Position
  {
    p.(security := None, portfolioNode := None)
  }

  function OutlineOf(node: PortfolioNode): Outline
    decreases node
  {
    Outline(node.uniqueId, node.name, seq(|node.positions|, i requires 0 <= i < |node.positions| => Unresolved(node.positions[i])),
            OutlinesOf(node.childNodes))
  }

  function OutlinesOf(children: seq<PortfolioNode>): seq<Outline>
    decreases children
  {
    if children == [] then [] else [OutlineOf(children[0])] + OutlinesOf(children[1..])
  }

  /** Every position names its node as its portfolio node, and every child names it as its parent, all the way down. */
  ghost predicate Linked(node: PortfolioNode)
    decreases node
  {
    && (forall p :: p in node.positions ==> p.portfolioNode == Some(node.uniqueId))
    && (forall i :: 0 <= i < |node.childNodes| ==>
          node.childNodes[i].parentNode == Some(node.uniqueId) && Linked(node.childNodes[i]))
  }

  function SecuritiesOf(ps: seq<Position>): seq<Option<Security>>
  {
    seq(|ps|, i requires 0 <= i < |ps| => ps[i].security)
  }

  function Choices(ps: seq<Position>, securitiesByKey: map<SecurityKey, Security>): seq<Option<Security>>
  {
    seq(|ps|, i requires 0 <= i < |ps| => SecurityChoice(ps[i], securitiesByKey))
  }

  lemma SecuritiesAppend(a: seq<Position>, b: seq<Position>, a': seq<Position>, b': seq<Position>,
                         securitiesByKey: map<SecurityKey, Security>)
    requires SecuritiesOf(a') == Choices(a, securitiesByKey) && SecuritiesOf(b') == Choices(b, securitiesByKey)
    ensures SecuritiesOf(a' + b') == Choices(a + b, securitiesByKey)
  {
    assert |a'| == |a| && |b'| == |b|;
    forall i | 0 <= i < |a + b|
      ensures SecuritiesOf(a' + b')[i] == Choices(a + b, securitiesByKey)[i]
    {
      if i >= |a| {
        assert SecuritiesOf(b')[i - |a|] == Choices(b, securitiesByKey)[i - |a|];
      } else {
        assert SecuritiesOf(a')[i] == Choices(a, securitiesByKey)[i];
      }
    }
  }

  /** The copies of the positions directly under node `nodeId`. */
  function ResolvedPositions(ps: seq<Position>, nodeId: UniqueId, securitiesByKey: map<SecurityKey, Security>)
    : (r: Result<seq<Position>, CompileError>)
    ensures FailsOnFirstUnresolvable(ps, securitiesByKey, r)
    ensures r.Success? ==>
      && |r.value| == |ps|
      && (forall i :: 0 <= i < |ps| ==> Unresolved(r.value[i]) == Unresolved(ps[i]))
      && (forall p :: p in r.value ==> p.portfolioNode == Some(nodeId))
      && SecuritiesOf(r.value) == Choices(ps, securitiesByKey)
  {
    if ps == [] then Success([])
    else
      var security := SecurityChoice(ps[0], securitiesByKey);
      var rest := ResolvedPositions(ps[1..], nodeId, securitiesByKey);
      var own: Result<seq<Position>, CompileError> :=
        if security.None? then Failure(SecurityNotResolved(ps[0].uniqueId))
        else Success([ps[0].(security := security, portfolioNode := Some(nodeId))]);
      var r: Result<seq<Position>, CompileError> :=
        if own.Failure? then own
        else if rest.Failure? then rest
        else Success(own.value + rest.value);
      ResolvedPositionsStep(ps, nodeId, securitiesByKey, security, own, rest, r);
      r
  }

  /** The resolution of the first position, followed by that of the others, resolves them all. */
  lemma ResolvedPositionsStep(ps: seq<Position>, nodeId: UniqueId, securitiesByKey: map<SecurityKey, Security>,
                              security: Option<Security>, own: Result<seq<Position>, CompileError>,
                              rest: Result<seq<Position>, CompileError>, r: Result<seq<Position>, CompileError>)
    requires ps != [] && security == SecurityChoice(ps[0], securitiesByKey)
    requires own == if security.None? then Failure(SecurityNotResolved(ps[0].uniqueId))
                    else Success([ps[0].(security := security, portfolioNode := Some(nodeId))])
    requires r == if own.Failure? then own else if rest.Failure? then rest else Success(own.value + rest.value)
    requires FailsOnFirstUnresolvable(ps[1..], securitiesByKey, rest)
    requires rest.Success? ==>
      && |rest.value| == |ps[1..]|
      && (forall i :: 0 <= i < |ps[1..]| ==> Unresolved(rest.value[i]) == Unresolved(ps[1..][i]))
      && (forall p :: p in rest.value ==> p.portfolioNode == Some(nodeId))
      && SecuritiesOf(rest.value) == Choices(ps[1..], securitiesByKey)
    ensures FailsOnFirstUnresolvable(ps, securitiesByKey, r)
    ensures r.Success? ==>
      && |r.value| == |ps|
      && (forall i :: 0 <= i < |ps| ==> Unresolved(r.value[i]) == Unresolved(ps[i]))
      && (forall p :: p in r.value ==> p.portfolioNode == Some(nodeId))
      && SecuritiesOf(r.value) == Choices(ps, securitiesByKey)
  {
    assert FailsOnFirstUnresolvable([ps[0]], securitiesByKey, own) by {
      if own.Failure? { assert FirstUnresolvable([ps[0]], securitiesByKey, 0); }
    }
    FailsOnFirstUnresolvableAppend([ps[0]], own, ps[1..], rest, securitiesByKey, r);
    assert [ps[0]] + ps[1..] == ps;
    if r.Success? {
      SecuritiesAppend([ps[0]], ps[1..], own.value, rest.value, securitiesByKey);
      forall i | 0 <= i < |ps|
        ensures Unresolved(r.value[i]) == Unresolved(ps[i])
      {
        if i > 0 { assert r.value[i] == rest.value[i - 1] && ps[i] == ps[1..][i - 1]; }
      }
    }
  }

  /**
   * createFullyResolvedPortfolioHierarchy for a present node: a copy with the
   * same id, name, positions and children in order, in which every position
   * carries a security (its own or the one found for its key) and names this
   * node, and every child names this node as its parent. The copy has no
   * parent of its own. It fails on the first position, depth first, for which
   * no security is found.
   */
  function ResolvedNode(node: PortfolioNode, securitiesByKey: map<SecurityKey, Security>)
    : (r: Result<PortfolioNode, CompileError>)
    ensures FailsOnFirstUnresolvable(AllPositions(node), securitiesByKey, r)
    ensures r.Success? ==>
      && OutlineOf(r.value) == OutlineOf(node)
      && r.value.parentNode == None
      && Linked(r.value)
      && SecuritiesOf(AllPositions(r.value)) == Choices(AllPositions(node), securitiesByKey)
    decreases node
  {
    var ps := ResolvedPositions(node.positions, node.uniqueId, securitiesByKey);
    var cs := ResolvedChildren(node.childNodes, node.uniqueId, securitiesByKey);
    var r: Result<PortfolioNode, CompileError> :=
      if ps.Failure? then Failure(ps.error)
      else if cs.Failure? then Failure(cs.error)
      else Success(PortfolioNode(node.uniqueId, node.name, None, ps.value, cs.value));
    FailsOnFirstUnresolvableAppend(node.positions, ps, AllPositionsOfChildren(node.childNodes), cs, securitiesByKey, r);
    assert r.Success? ==>
      && OutlineOf(r.value) == OutlineOf(node)
      && SecuritiesOf(AllPositions(r.value)) == Choices(AllPositions(node), securitiesByKey)
    by {
      if r.Success? {
        assert AllPositions(r.value) == ps.value + AllPositionsOfChildren(cs.value);
        SecuritiesAppend(node.positions, AllPositionsOfChildren(node.childNodes), ps.value,
                         AllPositionsOfChildren(cs.value), securitiesByKey);
        assert OutlineOf(r.value).positions == OutlineOf(node).positions;
      }
    }
    r
  }

  /** The resolved copies of a node's children, each naming `parentId` as its parent. */
  function ResolvedChildren(children: seq<PortfolioNode>, parentId: UniqueId, securitiesByKey: map<SecurityKey, Security>)
    : (r: Result<seq<PortfolioNode>, CompileError>)
    ensures FailsOnFirstUnresolvable(AllPositionsOfChildren(children), securitiesByKey, r)
    ensures r.Success? ==>
      && |r.value| == |children|
      && OutlinesOf(r.value) == OutlinesOf(children)
      && (forall i :: 0 <= i < |children| ==> r.value[i].parentNode == Some(parentId) && Linked(r.value[i]))
      && SecuritiesOf(AllPositionsOfChildren(r.value)) == Choices(AllPositionsOfChildren(children), securitiesByKey)
    decreases children
  {
    if children == [] then Success([])
    else
      var first := ResolvedNode(children[0], securitiesByKey);
      var rest := ResolvedChildren(children[1..], parentId, securitiesByKey);
      var r: Result<seq<PortfolioNode>, CompileError> :=
        if first.Failure? then Failure(first.error)
        else if rest.Failure? then Failure(rest.error)
        else Success([first.value.(parentNode := Some(parentId))] + rest.value);
      FailsOnFirstUnresolvableAppend(AllPositions(children[0]), first, AllPositionsOfChildren(children[1..]), rest,
                                     securitiesByKey, r);
      assert r.Success? ==>
        && OutlinesOf(r.value) == OutlinesOf(children)
        && (forall i :: 0 <= i < |children| ==> r.value[i].parentNode == Some(parentId) && Linked(r.value[i]))
        && SecuritiesOf(AllPositionsOfChildren(r.value)) == Choices(AllPositionsOfChildren(children), securitiesByKey)
      by {
        if r.Success? {
          var child := first.value.(parentNode := Some(parentId));
          assert AllPositions(child) == AllPositions(first.value);
          assert OutlineOf(child) == OutlineOf(first.value);
          assert Linked(child);
          assert r.value[0] == child && r.value[1..] == rest.value;
          SecuritiesAppend(AllPositions(children[0]), AllPositionsOfChildren(children[1..]), AllPositions(child),
                           AllPositionsOfChildren(rest.value), securitiesByKey);
        }
      }
      r
  }

  /** createFullyResolvedPortfolioHierarchy: an absent node gives an absent copy. */
  function ResolvedHierarchy(rootNode: Option<PortfolioNode>, securitiesByKey: map<SecurityKey, Security>)
    : (r: Result<Option<PortfolioNode>, CompileError>)
    ensures rootNode.None? ==> r == Success(None)
    ensures rootNode.Some? ==> (r.Success? <==> ResolvedNode(rootNode.value, securitiesByKey).Success?)
    ensures rootNode.Some? && r.Success? ==> r.value == Some(ResolvedNode(rootNode.value, securitiesByKey).value)
  {
    if rootNode.None? then Success(None)
    else
      var n := ResolvedNode(rootNode.value, securitiesByKey);
      if n.Failure? then Failure(n.error) else Success(Some(n.value))
  }

  /** Every position of the tree has a security. */
  ghost predicate FullyResolved(node: PortfolioNode)
  {
    forall p :: p in AllPositions(node) ==> p.security.Some?
  }

  /** A successful copy is fully resolved. */
  lemma ResolvedNodeIsFullyResolved(node: PortfolioNode, securitiesByKey: map<SecurityKey, Security>)
    requires ResolvedNode(node, securitiesByKey).Success?
    ensures FullyResolved(ResolvedNode(node, securitiesByKey).value)
  {
    var copy := ResolvedNode(node, securitiesByKey).value;
    var ps, qs := AllPositions(node), AllPositions(copy);
    forall p | p in qs
      ensures p.security.Some?
    {
      var i :| 0 <= i < |qs| && qs[i] == p;
      assert SecuritiesOf(qs)[i] == Choices(ps, securitiesByKey)[i];
      assert ps[i] in ps;
    }
  }

  // ------------------------------------------------------ fetching the portfolio

  /**
   * getPortfolio: looks the portfolio up, resolves the keys of its positions
   * in one call to the security resolver and builds the fully resolved copy.
   */
  function GetPortfolio(view: ViewDefinition, positionSource: Option<PositionSource>, resolver: SecurityResolver)
    : (r: Result<Portfolio, CompileError>)
    ensures view.portfolioId.None? ==> r == Failure(NoPortfolioReference)
    ensures view.portfolioId.Some? && positionSource.None? ==> r == Failure(NoPositionSource)
    ensures view.portfolioId.Some? && positionSource.Some? && view.portfolioId.value !in positionSource.value ==>
      r == Failure(PortfolioNotFound(view.portfolioId.value))
    ensures r.Success? ==>
      && view.portfolioId.Some? && positionSource.Some? && view.portfolioId.value in positionSource.value
      && var original := positionSource.value[view.portfolioId.value];
         && r.value.uniqueId == original.uniqueId && r.value.name == original.name
         && OutlineOf(r.value.rootNode) == OutlineOf(original.rootNode)
         && FullyResolved(r.value.rootNode)
    ensures view.portfolioId.Some? && positionSource.Some? && view.portfolioId.value in positionSource.value ==>
      var original := positionSource.value[view.portfolioId.value];
      var keys := SecurityKeysForResolution(original.rootNode);
      && (keys.Failure? ==> r == Failure(keys.error))
      && (keys.Success? && resolver(keys.value).None? ==> r == Failure(SecuritiesNotResolved))
      && (keys.Success? && resolver(keys.value).Some? ==>
            var securities := resolver(keys.value).value;
            && (r.Success? <==> ResolvedNode(original.rootNode, securities).Success?)
            && (r.Failure? ==> r.error == ResolvedNode(original.rootNode, securities).error)
            && (r.Success? ==> SecuritiesOf(AllPositions(r.value.rootNode)) == Choices(AllPositions(original.rootNode), securities)))
  {
    if view.portfolioId.None? then Failure(NoPortfolioReference)
    else if positionSource.None? then Failure(NoPositionSource)
    else if view.portfolioId.value !in positionSource.value then Failure(PortfolioNotFound(view.portfolioId.value))
    else
      var portfolio := positionSource.value[view.portfolioId.value];
      var keys := SecurityKeysForResolution(portfolio.rootNode);
      if keys.Failure? then Failure(keys.error)
      else
        var securities := resolver(keys.value);
        if securities.None? then Failure(SecuritiesNotResolved)
        else
          var root := ResolvedNode(portfolio.rootNode, securities.value);
          if root.Failure? then Failure(root.error)
          else
            ResolvedNodeIsFullyResolved(portfolio.rootNode, securities.value);
            Success(Portfolio(portfolio.uniqueId, portfolio.name, root.value))
  }

  /** The names of the configurations that have portfolio requirements, in order. */
  function ConfigsWithPortfolioRequirements(configs: seq<CalcConfig>): seq<string>
  {
    if configs == [] then []
    else (if HasPortfolioRequirements(configs[0]) then [configs[0].name] else [])
         + ConfigsWithPortfolioRequirements(configs[1..])
  }

  /**
   * execute: when the view outputs position or aggregate results, walks the
   * calculation configurations in order, skipping those without portfolio
   * requirements, fetching the portfolio when the first configuration needs
   * it and traversing it for each configuration that does. `traversals`
   * records, per traversal, the configuration and the portfolio walked;
   * `fetches` counts calls of getPortfolio.
   */
  method Execute(view: ViewDefinition, positionSource: Option<PositionSource>, resolver: SecurityResolver)
    returns (result: Result<Option<Portfolio>, CompileError>, traversals: seq<(string, Portfolio)>, fetches: nat)
    ensures !HasPortfolioOutput(view) ==> result == Success(None) && traversals == [] && fetches == 0
    ensures fetches <= 1
    ensures HasPortfolioOutput(view) && ConfigsWithPortfolioRequirements(view.calcConfigs) == [] ==>
      result == Success(None) && fetches == 0 && traversals == []
    ensures HasPortfolioOutput(view) && ConfigsWithPortfolioRequirements(view.calcConfigs) != [] ==>
      && fetches == 1
      && (result.Failure? <==> GetPortfolio(view, positionSource, resolver).Failure?)
      && (result.Failure? ==> result.error == GetPortfolio(view, positionSource, resolver).error && traversals == [])
      && (result.Success? ==>
            && result.value == Some(GetPortfolio(view, positionSource, resolver).value)
            && Traversed(traversals, ConfigsWithPortfolioRequirements(view.calcConfigs), result.value.value))
  {
    traversals, fetches := [], 0;
    if !HasPortfolioOutput(view) {
      return Success(None), traversals, fetches;
    }
    var portfolio: Option<Portfolio> := None;
    var i := 0;
    while i < |view.calcConfigs|
      invariant 0 <= i <= |view.calcConfigs|
      invariant ExecutedUpTo(view, positionSource, resolver, i, portfolio, traversals, fetches)
    {
      var failure;
      failure, portfolio, traversals, fetches := VisitConfig(view, positionSource, resolver, i, portfolio, traversals, fetches);
      if failure.Some? {
        return Failure(failure.value), traversals, fetches;
      }
      i := i + 1;
    }
    assert view.calcConfigs[..i] == view.calcConfigs;
    return if portfolio.Some? then Success(portfolio) else Success(None), traversals, fetches;
  }

  /**
   * The loop of execute after the first i configurations: the portfolio has
   * been fetched once if one of them has portfolio requirements, and not at
   * all otherwise, and it has been walked once for each such one.
   */
  ghost predicate ExecutedUpTo(view: ViewDefinition, positionSource: Option<PositionSource>, resolver: SecurityResolver,
                               i: nat, portfolio: Option<Portfolio>, traversals: seq<(string, Portfolio)>, fetches: nat)
    requires i <= |view.calcConfigs|
  {
    && fetches == (if ConfigsWithPortfolioRequirements(view.calcConfigs[..i]) == [] then 0 else 1)
    && (portfolio.Some? <==> fetches == 1)
    && (portfolio.Some? ==> GetPortfolio(view, positionSource, resolver) == Success(portfolio.value))
    && (portfolio.Some? ==> Traversed(traversals, ConfigsWithPortfolioRequirements(view.calcConfigs[..i]), portfolio.value))
    && (portfolio.None? ==> traversals == [])
  }

  /**
   * One turn of the loop of execute: a configuration without portfolio
   * requirements is skipped; otherwise the portfolio is fetched if this is the
   * first that needs it, and walked. A failed fetch ends the loop.
   */
  method VisitConfig(view: ViewDefinition, positionSource: Option<PositionSource>, resolver: SecurityResolver, i: nat,
                     portfolio: Option<Portfolio>, traversals: seq<(string, Portfolio)>, fetches: nat)
    returns (failure: Option<CompileError>, portfolio': Option<Portfolio>, traversals': seq<(string, Portfolio)>, fetches': nat)
    requires i < |view.calcConfigs|
    requires ExecutedUpTo(view, positionSource, resolver, i, portfolio, traversals, fetches)
    ensures failure.None? ==> ExecutedUpTo(view, positionSource, resolver, i + 1, portfolio', traversals', fetches')
    ensures failure.Some? ==>
      && GetPortfolio(view, positionSource, resolver) == Failure(failure.value)
      && ConfigsWithPortfolioRequirements(view.calcConfigs) != []
      && traversals' == [] && fetches' == 1
  {
    var config := view.calcConfigs[i];
    ConfigsSplit(view.calcConfigs, i);
    failure, portfolio', traversals', fetches' := None, portfolio, traversals, fetches;
    if !HasPortfolioRequirements(config) {
      return;
    }
    if portfolio'.None? {
      var fetched := GetPortfolio(view, positionSource, resolver);
      fetches' := fetches' + 1;
      if fetched.Failure? {
        return Some(fetched.error), portfolio', traversals', fetches';
      }
      portfolio' := Some(fetched.value);
    }
    TraversedStep(traversals', ConfigsWithPortfolioRequirements(view.calcConfigs[..i]), portfolio'.value, config.name);
    traversals' := traversals' + [(config.name, portfolio'.value)];
  }

  /** The traversals walked the portfolio `p` once for each configuration named in `names`, in that order. */
  ghost predicate Traversed(traversals: seq<(string, Portfolio)>, names: seq<string>, p: Portfolio)
  {
    && |traversals| == |names|
    && forall i :: 0 <= i < |traversals| ==> traversals[i] == (names[i], p)
  }

  lemma TraversedStep(traversals: seq<(string, Portfolio)>, names: seq<string>, p: Portfolio, name: string)
    requires Traversed(traversals, names, p)
    ensures Traversed(traversals + [(name, p)], names + [name], p)
  {
  }

  lemma {:induction false} ConfigsAppend(a: seq<CalcConfig>, b: seq<CalcConfig>)
    ensures ConfigsWithPortfolioRequirements(a + b) == ConfigsWithPortfolioRequirements(a) + ConfigsWithPortfolioRequirements(b)
  {
    if a == [] {
      assert a + b == b;
    } else {
      assert (a + b)[0] == a[0];
      assert (a + b)[1..] == a[1..] + b;
      ConfigsAppend(a[1..], b);
    }
  }

  lemma {:induction false} ConfigsSplit(configs: seq<CalcConfig>, i: nat)
    requires i < |configs|
    ensures ConfigsWithPortfolioRequirements(configs[..i + 1]) ==
            ConfigsWithPortfolioRequirements(configs[..i]) + (if HasPortfolioRequirements(configs[i]) then [configs[i].name] else [])
    ensures ConfigsWithPortfolioRequirements(configs) ==
            ConfigsWithPortfolioRequirements(configs[..i]) + ConfigsWithPortfolioRequirements(configs[i..])
  {
    ConfigsExtend(configs[..i], configs[i]);
    assert configs[..i + 1] == configs[..i] + [configs[i]];
    ConfigsAppend(configs[..i], configs[i..]);
    assert configs[..i] + configs[i..] == configs;
  }

  lemma {:induction false} ConfigsExtend(a: seq<CalcConfig>, c: CalcConfig)
    ensures ConfigsWithPortfolioRequirements(a + [c]) ==
            ConfigsWithPortfolioRequirements(a) + (if HasPortfolioRequirements(c) then [c.name] else [])
  {
    ConfigsAppend(a, [c]);
    assert [c][1..] == [];
  }
}
