/** What the matcher chain promises as a whole: evaluation runs every clause
    (no short-circuit), each clause records its own outcome, the description
    is the root's text followed by one line per clause that did not match,
    describing never consults the subject's accessors, and every clause
    shares the root's declared class. */
module ChainProperties {
  import opened Wrappers
  import opened Text
  import opened Values
  import opened ObjectMatchers

  // ---------------------------------------------------------------------
  // Shapes of chains
  // ---------------------------------------------------------------------

  /** What a valid clause node says about its predecessor. */
  lemma Predecessor(c: ObjectMatcher)
    requires c.Valid() && c.GetterNode?
    ensures c.g.Valid() && c.g.objectMatcher.Valid() && c.g.getterMatcher.Valid()
    ensures c.g.objectMatcher.Height() < c.Height()
    ensures c.Nodes() == c.g.objectMatcher.Nodes() + [c.g]
    ensures c.Root() == c.g.objectMatcher.Root()
  {
  }

  /** No clause of the chain shares a node of its predecessor chain with
      the nested chain of its matcher, so a later clause's nested evaluation
      never overwrites an earlier clause's cache. */
  ghost predicate Tree(c: ObjectMatcher)
    requires c.Valid()
    decreases c.Height()
  {
    match c
    case TypeNode(_) => true
    case GetterNode(g) =>
      Predecessor(c);
      g.objectMatcher.Repr() !! g.getterMatcher.Repr() && Tree(g.objectMatcher)
  }

  /** Every clause applies an opaque matcher (no nested chain). */
  ghost predicate Flat(c: ObjectMatcher)
    requires c.Valid()
    decreases c.Height()
  {
    match c
    case TypeNode(_) => true
    case GetterNode(g) =>
      Predecessor(c);
      g.getterMatcher.Simple? && Flat(g.objectMatcher)
  }

  /** The outcome a clause's own test records for `item`. */
  function OwnOutcome(g: GetterMatcher, item: Value): (o: Outcome)
    requires g.Valid() && g.TestReady(item)
    ensures o == CouldNotInvoke <==> g.Invoke(item).Failed?
    ensures o == Match <==> g.OwnAccepts(item)
  {
    match g.Invoke(item)
    case Failed(_) => CouldNotInvoke
    case Returned(v) => if g.getterMatcher.Accepts(v) then Match else Mismatch
  }

  // ---------------------------------------------------------------------
  // Evaluation
  // ---------------------------------------------------------------------

  /** A clause outside the set a run may touch keeps its cache. */
  lemma UnchangedLookup(before: Env, after: Env, nodes: set<GetterMatcher>, g: GetterMatcher)
    requires Unchanged(before, after, nodes) && g !in nodes
    ensures Lookup(after, g) == Lookup(before, g)
  {
    if g in before.Keys + after.Keys {
    }
  }

  /** A chain can be evaluated exactly when its root's subject can be
      handed to every clause's accessor. */
  lemma {:induction false} EvaluableIffNodesReady(c: ObjectMatcher, item: Value)
    requires c.Valid()
    ensures c.Evaluable(item) <==> forall i :: 0 <= i < |c.Nodes()| ==> c.Nodes()[i].TestReady(item)
    decreases c.Height()
  {
    match c
    case TypeNode(_) =>
    case GetterNode(g) =>
      Predecessor(c);
      EvaluableIffNodesReady(g.objectMatcher, item);
      var ns := g.objectMatcher.Nodes();
      assert c.Nodes() == ns + [g];
      assert forall i :: 0 <= i < |ns| ==> c.Nodes()[i] == ns[i];
      assert c.Nodes()[|ns|] == g;
  }

  /** `matches` is the conjunction of the root's type check and every
      clause's own test. */
  lemma {:induction false} AcceptsIffAllClauses(c: ObjectMatcher, item: Value)
    requires c.Valid() && c.Evaluable(item)
    ensures forall i :: 0 <= i < |c.Nodes()| ==> c.Nodes()[i].TestReady(item)
    ensures c.Accepts(item) <==>
              c.Root().Matches(item) && forall i :: 0 <= i < |c.Nodes()| ==> c.Nodes()[i].OwnAccepts(item)
    decreases c.Height()
  {
    EvaluableIffNodesReady(c, item);
    match c
    case TypeNode(_) =>
    case GetterNode(g) =>
      Predecessor(c);
      AcceptsIffAllClauses(g.objectMatcher, item);
      var ns := g.objectMatcher.Nodes();
      assert forall i :: 0 <= i < |ns| ==> c.Nodes()[i] == ns[i];
      assert c.Nodes()[|ns|] == g;
  }

  /** A clause occurs once in its own chain: no clause is its own
      predecessor, however far back. */
  lemma {:induction false} NodesDistinct(c: ObjectMatcher)
    requires c.Valid()
    ensures forall i, j :: 0 <= i < j < |c.Nodes()| ==> c.Nodes()[i] != c.Nodes()[j]
    decreases c.Height()
  {
    match c
    case TypeNode(_) =>
    case GetterNode(g) =>
      Predecessor(c);
      NodesDistinct(g.objectMatcher);
      var ns := g.objectMatcher.Nodes();
      assert forall i :: 0 <= i < |ns| ==> c.Nodes()[i] == ns[i] && ns[i] in g.objectMatcher.Repr();
      assert c.Nodes()[|ns|] == g && g !in g.objectMatcher.Repr();
  }

  /** No short-circuit: every clause of a flat chain invokes its accessor
      exactly once, oldest first, whatever the earlier clauses found. */
  lemma {:induction false} FlatInvokesEachClauseOnce(c: ObjectMatcher, item: Value)
    requires c.Valid() && Flat(c) && c.Evaluable(item)
    ensures c.Invocations(item) == c.Nodes()
    decreases c.Height()
  {
    match c
    case TypeNode(_) =>
    case GetterNode(g) =>
      Predecessor(c);
      FlatInvokesEachClauseOnce(g.objectMatcher, item);
      assert g.OwnInvocations(item) == [g];
  }

  /** No short-circuit, nested chains included: every clause of the chain
      invokes its accessor. */
  lemma {:induction false} EveryClauseInvoked(c: ObjectMatcher, item: Value)
    requires c.Valid() && c.Evaluable(item)
    ensures forall i :: 0 <= i < |c.Nodes()| ==> c.Nodes()[i] in c.Invocations(item)
    decreases c.Height()
  {
    match c
    case TypeNode(_) =>
    case GetterNode(g) =>
      Predecessor(c);
      EveryClauseInvoked(g.objectMatcher, item);
      var ns := g.objectMatcher.Nodes();
      var before := g.objectMatcher.Invocations(item);
      assert c.Nodes() == ns + [g];
      assert c.Invocations(item) == before + g.OwnInvocations(item);
      assert g.OwnInvocations(item)[0] == g;
      forall i | 0 <= i < |c.Nodes()|
        ensures c.Nodes()[i] in c.Invocations(item)
      {
        if i < |ns| {
          assert c.Nodes()[i] == ns[i];
          assert ns[i] in before;
        } else {
          assert c.Invocations(item)[|before|] == g;
        }
      }
  }

  /** After evaluating a tree-shaped chain, every clause's cache holds its
      own test of `item`: the outcome, the returned value when there was
      one, the failure when the accessor failed. */
  lemma {:induction false} RunRecordsOwnOutcome(c: ObjectMatcher, item: Value, env: Env, n: GetterMatcher)
    requires c.Valid() && Tree(c) && c.Evaluable(item)
    requires n in c.Nodes()
    ensures n.Valid() && n.TestReady(item)
    ensures Lookup(c.Run(item, env), n).result == OwnOutcome(n, item)
    ensures n.Invoke(item).Returned? ==> Lookup(c.Run(item, env), n).returnValue == n.Invoke(item).value
    ensures n.Invoke(item).Failed? ==> Lookup(c.Run(item, env), n).exception == Some(n.Invoke(item).error)
    decreases c.Height()
  {
    EvaluableIffNodesReady(c, item);
    match c
    case TypeNode(_) =>
    case GetterNode(g) =>
      Predecessor(c);
      var mid := g.objectMatcher.Run(item, env);
      var ns := g.objectMatcher.Nodes();
      assert c.Nodes() == ns + [g];
      assert c.Run(item, env) == g.TestRun(item, mid);
      if n != g {
        assert n in ns;
        assert Tree(g.objectMatcher) && g.objectMatcher.Repr() !! g.getterMatcher.Repr();
        RunRecordsOwnOutcome(g.objectMatcher, item, env, n);
        assert n in g.objectMatcher.Repr();
        UnchangedLookup(mid, g.TestRun(item, mid), {g} + g.getterMatcher.Repr(), n);
      }
  }

  /** Evaluating an accepted subject leaves every clause the chain reaches
      matched, nested chains and shared clauses included: every test that
      runs passes, so every cache it writes says MATCH. */
  lemma {:induction false} AcceptedRunMatchesAll(c: ObjectMatcher, item: Value, env: Env)
    requires c.Valid() && c.Evaluable(item) && c.Accepts(item)
    ensures forall n :: n in c.Repr() ==> Lookup(c.Run(item, env), n).result == Match
    ensures forall i :: 0 <= i < |c.Nodes()| ==> Lookup(c.Run(item, env), c.Nodes()[i]).result == Match
    decreases c.Height(), 1
  {
    match c
    case TypeNode(_) =>
    case GetterNode(g) =>
      Predecessor(c);
      var om := g.objectMatcher;
      AcceptedRunMatchesAll(om, item, env);
      var mid := om.Run(item, env);
      assert g.TestReady(item) && g.OwnAccepts(item);
      var v := g.Invoke(item).value;
      assert g.Invoke(item) == Returned(v) && g.getterMatcher.Accepts(v);
      MatcherAcceptedRunMatchesAll(g.getterMatcher, v, mid);
      var nested := g.getterMatcher.Run(v, mid);
      assert c.Run(item, env) == g.TestRun(item, mid);
      assert g.TestRun(item, mid) == nested[g := Cache(Match, v, Lookup(mid, g).exception)];
      forall n | n in c.Repr()
        ensures Lookup(c.Run(item, env), n).result == Match
      {
        if n != g && n !in g.getterMatcher.Repr() {
          assert n in om.Repr();
          UnchangedLookup(mid, nested, g.getterMatcher.Repr(), n);
        }
      }
  }

  /** The same for a matcher: an accepted value leaves every clause of a
      nested chain matched. */
  lemma {:induction false} MatcherAcceptedRunMatchesAll(m: Matcher, v: Value, env: Env)
    requires m.Valid() && m.Evaluable(v) && m.Accepts(v)
    ensures forall n :: n in m.Repr() ==> Lookup(m.Run(v, env), n).result == Match
    decreases m.Height(), 2
  {
    match m
    case Simple(_, _, _) =>
    case Is(c) => AcceptedRunMatchesAll(c, v, env);
  }

  // ---------------------------------------------------------------------
  // Descriptions
  // ---------------------------------------------------------------------

  /** The clause lines of `nodes`, in order. */
  function Clauses(nodes: seq<GetterMatcher>, env: Env, level: nat): string
    requires forall i :: 0 <= i < |nodes| ==> nodes[i].Valid()
  {
    if nodes == [] then ""
    else Clauses(nodes[..|nodes| - 1], env, level) + nodes[|nodes| - 1].Clause(env, level)
  }

  /** The mismatch lines of `nodes`, in order. */
  function MismatchClauses(nodes: seq<GetterMatcher>, env: Env, item: Value, level: nat): string
    requires forall i :: 0 <= i < |nodes| ==> nodes[i].Valid() && nodes[i].ClauseRenderable(env, item)
  {
    if nodes == [] then ""
    else MismatchClauses(nodes[..|nodes| - 1], env, item, level) + nodes[|nodes| - 1].MismatchClause(env, item, level)
  }

  lemma ClausesSnoc(nodes: seq<GetterMatcher>, g: GetterMatcher, env: Env, level: nat)
    requires forall i :: 0 <= i < |nodes| ==> nodes[i].Valid()
    requires g.Valid()
    ensures Clauses(nodes + [g], env, level) == Clauses(nodes, env, level) + g.Clause(env, level)
  {
    assert (nodes + [g])[..|nodes|] == nodes;
  }

  /** The description walks the chain oldest first: the root's text, then
      the line of each clause in turn. */
  lemma {:induction false} DescriptionFlattens(c: ObjectMatcher, env: Env, level: nat)
    requires c.Valid()
    ensures c.DescriptionUnder(env, level) == c.Root().DescriptionText() + Clauses(c.Nodes(), env, level)
    decreases c.Height()
  {
    match c
    case TypeNode(_) =>
    case GetterNode(g) =>
      Predecessor(c);
      DescriptionFlattens(g.objectMatcher, env, level);
      var ns := g.objectMatcher.Nodes();
      ClausesSnoc(ns, g, env, level);
      ConcatAssoc(c.Root().DescriptionText(), Clauses(ns, env, level), g.Clause(env, level));
  }

  /** A mismatch can be rendered exactly when the root's and every
      clause's line can. */
  lemma {:induction false} MismatchRenderableIffAll(c: ObjectMatcher, env: Env, item: Value)
    requires c.Valid()
    ensures c.MismatchRenderable(env, item) <==>
              c.Root().MismatchRenderable(item)
              && forall i :: 0 <= i < |c.Nodes()| ==> c.Nodes()[i].ClauseRenderable(env, item)
    decreases c.Height()
  {
    match c
    case TypeNode(_) =>
    case GetterNode(g) =>
      Predecessor(c);
      MismatchRenderableIffAll(g.objectMatcher, env, item);
      var ns := g.objectMatcher.Nodes();
      assert forall i :: 0 <= i < |ns| ==> c.Nodes()[i] == ns[i];
      assert c.Nodes()[|ns|] == g;
  }

  lemma MismatchClausesSnoc(nodes: seq<GetterMatcher>, g: GetterMatcher, env: Env, item: Value, level: nat)
    requires forall i :: 0 <= i < |nodes| ==> nodes[i].Valid() && nodes[i].ClauseRenderable(env, item)
    requires g.Valid() && g.ClauseRenderable(env, item)
    ensures MismatchClauses(nodes + [g], env, item, level)
              == MismatchClauses(nodes, env, item, level) + g.MismatchClause(env, item, level)
  {
    assert (nodes + [g])[..|nodes|] == nodes;
  }

  /** The mismatch description walks the chain the same way. */
  lemma {:induction false} MismatchFlattens(c: ObjectMatcher, env: Env, item: Value, level: nat)
    requires c.Valid() && c.MismatchRenderable(env, item)
    ensures c.Root().MismatchRenderable(item)
    ensures forall i :: 0 <= i < |c.Nodes()| ==> c.Nodes()[i].ClauseRenderable(env, item)
    ensures c.MismatchUnder(env, item, level)
              == c.Root().MismatchText(item) + MismatchClauses(c.Nodes(), env, item, level)
    decreases c.Height()
  {
    MismatchRenderableIffAll(c, env, item);
    match c
    case TypeNode(_) =>
    case GetterNode(g) =>
      Predecessor(c);
      MismatchFlattens(g.objectMatcher, env, item, level);
      var ns := g.objectMatcher.Nodes();
      MismatchClausesSnoc(ns, g, env, item, level);
      ConcatAssoc(c.Root().MismatchText(item), MismatchClauses(ns, env, item, level), g.MismatchClause(env, item, level));
  }

  /** Clauses whose own outcome is a match write nothing. */
  lemma {:induction false} MatchedClausesSilent(nodes: seq<GetterMatcher>, env: Env, item: Value, level: nat)
    requires forall i :: 0 <= i < |nodes| ==> nodes[i].Valid() && Lookup(env, nodes[i]).result == Match
    ensures Clauses(nodes, env, level) == ""
    ensures (forall i :: 0 <= i < |nodes| ==> nodes[i].ClauseRenderable(env, item))
            && MismatchClauses(nodes, env, item, level) == ""
    decreases |nodes|
  {
    if nodes != [] {
      MatchedClausesSilent(nodes[..|nodes| - 1], env, item, level);
    }
  }

  /** A chain that has never been evaluated describes itself by its root
      alone. */
  lemma SilentWhenFresh(c: ObjectMatcher, level: nat)
    requires c.Valid()
    ensures c.DescriptionUnder(map[], level) == c.Root().DescriptionText()
  {
    DescriptionFlattens(c, map[], level);
    MatchedClausesSilent(c.Nodes(), map[], Null, level);
  }

  /** After an accepted subject, a chain describes itself, and the
      mismatch, by its root alone. */
  lemma SilentAfterAccept(c: ObjectMatcher, item: Value, env: Env, level: nat)
    requires c.Valid() && c.Evaluable(item) && c.Accepts(item)
    ensures c.DescriptionUnder(c.Run(item, env), level) == c.Root().DescriptionText()
    ensures c.Root().MismatchRenderable(item) ==>
              c.MismatchRenderable(c.Run(item, env), item)
              && c.MismatchUnder(c.Run(item, env), item, level) == c.Root().MismatchText(item)
  {
    var e := c.Run(item, env);
    AcceptedRunMatchesAll(c, item, env);
    DescriptionFlattens(c, e, level);
    MatchedClausesSilent(c.Nodes(), e, item, level);
    if c.Root().MismatchRenderable(item) {
      MismatchRenderableIffAll(c, e, item);
      MismatchFlattens(c, e, item, level);
    }
  }

  /** A clause's line depends on its own cached outcome: a matched clause is
      silent whatever the other clauses hold, and a clause that did not
      match writes its accessor's name and its matcher's description on a
      new line indented to the renderer's depth. */
  lemma ClauseReflectsOwnOutcome(g: GetterMatcher, env: Env, level: nat)
    requires g.Valid()
    ensures Lookup(env, g).result == Match <==> g.Clause(env, level) == ""
    ensures Lookup(env, g).result != Match ==>
              g.Clause(env, level) == Newline(level) + "where " + g.getterName + " "
                                      + g.getterMatcher.DescriptionUnder(env, level)
  {
    if Lookup(env, g).result != Match {
      assert g.Clause(env, level)[0] == '\n';
    }
  }

  /** Every line a clause writes starts on a new line indented by exactly
      four spaces per level of depth. */
  lemma ClauseIndented(g: GetterMatcher, env: Env, level: nat)
    requires g.Valid()
    ensures var line := g.Clause(env, level);
            line == [] || (|line| > 4 * level && line[..1 + 4 * level] == Newline(level))
  {
    var line := g.Clause(env, level);
    if line != [] {
      var nl := Newline(level);
      var rest := "where " + g.getterName + " " + g.getterMatcher.DescriptionUnder(env, level);
      assert line == nl + rest by {
        ConcatAssoc(nl, "where ", g.getterName);
        ConcatAssoc(nl, "where " + g.getterName, " ");
        ConcatAssoc(nl, "where " + g.getterName + " ", g.getterMatcher.DescriptionUnder(env, level));
      }
      PrefixOfConcat(nl, rest);
    }
  }

  /** `is(<chain>)` describes the nested chain one level deeper: its root's
      text follows "is ", and its clause lines are indented one unit more
      than the enclosing renderer's. */
  lemma NestedChainOneLevelDeeper(c: ObjectMatcher, env: Env, level: nat)
    requires c.Valid()
    ensures Is(c).Valid()
    ensures Is(c).DescriptionUnder(env, level) == "is " + c.Root().DescriptionText() + Clauses(c.Nodes(), env, level + 1)
  {
    DescriptionFlattens(c, env, level + 1);
    ConcatAssoc("is ", c.Root().DescriptionText(), Clauses(c.Nodes(), env, level + 1));
  }

  /** The mismatch of `is(<chain>)` is the nested chain's, with its clause
      lines one level deeper than the enclosing renderer's. */
  lemma NestedMismatchOneLevelDeeper(c: ObjectMatcher, env: Env, v: Value, level: nat)
    requires c.Valid() && c.MismatchRenderable(env, v)
    ensures Is(c).Valid() && Is(c).MismatchRenderable(env, v)
    ensures c.Root().MismatchRenderable(v)
    ensures forall i :: 0 <= i < |c.Nodes()| ==> c.Nodes()[i].ClauseRenderable(env, v)
    ensures Is(c).MismatchUnder(env, v, level) == c.Root().MismatchText(v) + MismatchClauses(c.Nodes(), env, v, level + 1)
  {
    MismatchFlattens(c, env, v, level + 1);
  }

  // ---------------------------------------------------------------------
  // Describing never consults the subject
  // ---------------------------------------------------------------------

  /** Two subjects that are both null, or share a runtime class. */
  predicate SameShape(a: Value, b: Value)
  {
    a.Null? == b.Null? && (!a.Null? ==> RuntimeClass(a) == RuntimeClass(b))
  }

  /** The mismatch description reads only the caches and the subject's
      runtime class: two subjects of the same class get the same text,
      whatever their accessors would return. */
  lemma {:induction false} MismatchIgnoresAccessors(c: ObjectMatcher, env: Env, a: Value, b: Value, level: nat)
    requires c.Valid() && SameShape(a, b) && c.MismatchRenderable(env, a)
    ensures c.MismatchRenderable(env, b)
    ensures c.MismatchUnder(env, a, level) == c.MismatchUnder(env, b, level)
    decreases c.Height()
  {
    match c
    case TypeNode(t) =>
    case GetterNode(g) =>
      Predecessor(c);
      MismatchIgnoresAccessors(g.objectMatcher, env, a, b, level);
      assert g.MismatchRenderable(env, a);
      assert g.ClauseRenderable(env, a);
      assert g.ClauseRenderable(env, b);
      assert g.MismatchClause(env, a, level) == g.MismatchClause(env, b, level);
  }

  // ---------------------------------------------------------------------
  // Structure
  // ---------------------------------------------------------------------

  /** Every clause of a chain resolves its accessor against the root's
      declared class. */
  lemma {:induction false} ClassIsRootClass(c: ObjectMatcher)
    requires c.Valid()
    ensures c.ObjectClass() == c.Root().clazz
    ensures forall i :: 0 <= i < |c.Nodes()| ==> c.Nodes()[i].clazz == c.Root().clazz
    decreases c.Height()
  {
    match c
    case TypeNode(_) =>
    case GetterNode(g) =>
      Predecessor(c);
      ClassIsRootClass(g.objectMatcher);
      var ns := g.objectMatcher.Nodes();
      assert c.Nodes() == ns + [g];
      assert forall i :: 0 <= i < |ns| ==> c.Nodes()[i] == ns[i];
  }
}
