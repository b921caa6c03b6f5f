/** The matcher chain: a type check at the root (TypeMatcher), property
    clauses that each wrap their predecessor and keep a cache of their own
    last evaluation (GetterMatcher), the external matchers a clause applies
    to a property value (Matcher, with `is(<chain>)` for nested chains), and
    the renderer that indents every clause by its nesting depth
    (MultilineDescription) over a plain text sink (TextSink).

    The chain's shape is immutable (`const` fields, including the ghost
    footprint `Repr` and `height`), so the specification functions over it
    need no `reads` clause. The only mutable state is each clause's cache.
    Methods that read or write caches take a ghost `env` that agrees with
    the caches on the chain's footprint, and are specified against the pure
    functions below (`Run`, `DescriptionUnder`, `MismatchUnder`). */
module ObjectMatchers {
  import opened Wrappers
  import opened Text
  import opened Values
  import opened Names

  /** The outcome of a clause's own test in its last evaluation. */
  datatype Outcome = Match | Mismatch | CouldNotInvoke

  /** A clause's single-slot record of its last evaluation:
      `_lastResult`, `_lastReturnValue`, `_lastException`. */
  datatype Cache = Cache(result: Outcome, returnValue: Value, exception: Option<InvocationError>)

  /** The cache of a clause that has never been evaluated. */
  const FreshCache: Cache := Cache(Match, Null, None)

  /** The caches of a set of clauses; a clause missing from the map is fresh. */
  type Env = map<GetterMatcher, Cache>

  function Lookup(env: Env, g: GetterMatcher): Cache
  {
    if g in env then env[g] else FreshCache
  }

  /** `env` gives the current cache of every clause in `nodes`. */
  ghost predicate Agrees(nodes: set<GetterMatcher>, env: Env)
    reads nodes
  {
    forall g :: g in nodes ==> g.Cached() == Lookup(env, g)
  }

  /** Every clause outside `nodes` has the same cache in `before` and `after`. */
  ghost predicate Unchanged(before: Env, after: Env, nodes: set<GetterMatcher>)
  {
    forall g :: g in before.Keys + after.Keys && g !in nodes ==> Lookup(after, g) == Lookup(before, g)
  }

  /** The message of the `IllegalArgumentException` raised when a class has
      no accessor for a property name. */
  function NoSuchGetterMessage(clazz: Class, getterName: string): string
  {
    "No such getter in " + clazz.simpleName + " by the name of " + getterName
  }

  /** `getGetter`: resolve a property name to a public accessor of the
      declared class, or fail with the construction-time error. A method the
      class declares itself hides an inherited one of the same name. */
  function GetGetter(clazz: Class, getterName: string): (r: Result<Method, string>)
    ensures r.Success? <==> MethodNameOf(getterName) in clazz.Methods()
    ensures r.Success? ==> r.value.name == MethodNameOf(getterName)
    ensures r.Success? && r.value.name in clazz.declared ==> r.value.declaringClass == clazz
    ensures r.Success? && r.value.name !in clazz.declared ==> r.value.declaringClass == clazz.inherited[r.value.name]
    ensures r.Failure? ==> r.error == NoSuchGetterMessage(clazz, getterName)
  {
    var name := MethodNameOf(getterName);
    if name in clazz.declared then Success(Method(name, clazz))
    else if name in clazz.inherited then Success(Method(name, clazz.inherited[name]))
    else Failure(NoSuchGetterMessage(clazz, getterName))
  }

  // ---------------------------------------------------------------------
  // The plain sink and the indenting renderer
  // ---------------------------------------------------------------------

  /** A plain `Description` that accumulates text, as the tests' own
      description does: `appendValue` writes `String.valueOf(value)`, with
      no angle brackets around it. */
  class TextSink {
    var text: string

    constructor ()
      ensures text == ""
    {
      text := "";
    }

    method AppendText(s: string)
      modifies this
      ensures text == old(text) + s
    {
      text := text + s;
    }

    method AppendValue(v: Value)
      modifies this
      ensures text == old(text) + ValueText(v)
    {
      text := text + ValueText(v);
    }
  }

  /** The `Description` handed to a chain's public describe methods: a plain
      sink, or a renderer of an enclosing chain. */
  datatype Description = Plain(sink: TextSink) | Multiline(renderer: MultilineDescription)
  {
    /** The plain sink that ultimately receives the text. */
    function Base(): TextSink
    {
      match this
      case Plain(sink) => sink
      case Multiline(renderer) => renderer.base
    }

    /** The depth of a renderer wrapped around this description. */
    function NestedLevel(): (level: nat)
      ensures level >= 1
      ensures Plain? ==> level == 1
      ensures Multiline? ==> level == renderer.level + 1
    {
      match this
      case Plain(_) => 1
      case Multiline(renderer) => renderer.level + 1
    }
  }

  /** Anything a renderer can be asked to describe: a matcher, a chain, or a
      value (as `appendValueList` wraps its values). */
  datatype SelfDescribing = MatcherItem(m: Matcher) | ChainItem(c: ObjectMatcher) | ValueItem(v: Value)
  {
    ghost function Height(): nat
    {
      match this
      case MatcherItem(m) => m.Height()
      case ChainItem(c) => c.Height()
      case ValueItem(_) => 0
    }

    ghost function Rank(): nat
    {
      match this
      case MatcherItem(_) => 6
      case ChainItem(_) => 4
      case ValueItem(_) => 0
    }

    ghost function Repr(): set<GetterMatcher>
    {
      match this
      case MatcherItem(m) => m.Repr()
      case ChainItem(c) => c.Repr()
      case ValueItem(_) => {}
    }

    ghost predicate Valid()
    {
      match this
      case MatcherItem(m) => m.Valid()
      case ChainItem(c) => c.Valid()
      case ValueItem(_) => true
    }

    /** What describing this item through a renderer at `level` writes: a
        chain re-wraps the renderer, so it is written one level deeper. */
    function TextUnder(env: Env, level: nat): string
      requires Valid()
    {
      match this
      case MatcherItem(m) => m.DescriptionUnder(env, level)
      case ChainItem(c) => c.DescriptionUnder(env, level + 1)
      case ValueItem(v) => ValueText(v)
    }
  }

  /** The texts of a list of items, in order. */
  function Texts(values: seq<SelfDescribing>, env: Env, level: nat): (r: seq<string>)
    requires forall i :: 0 <= i < |values| ==> values[i].Valid()
    ensures |r| == |values|
    ensures forall i :: 0 <= i < |values| ==> r[i] == values[i].TextUnder(env, level)
  {
    if values == [] then [] else [values[0].TextUnder(env, level)] + Texts(values[1..], env, level)
  }

  /** The indenting renderer: it forwards every write to the plain sink
      `base` and writes each new line followed by `level` indentation units. */
  class MultilineDescription {
    const base: TextSink
    const level: nat

    /** Wrapping a plain sink starts at depth 1; wrapping a renderer keeps its
        sink and goes one level deeper. */
    constructor (description: Description)
      ensures description.Plain? ==> base == description.sink && level == 1
      ensures description.Multiline? ==>
                base == description.renderer.base && level == description.renderer.level + 1
    {
      match description
      case Multiline(multiline) =>
        base := multiline.base;
        level := multiline.level + 1;
      case Plain(sink) =>
        base := sink;
        level := 1;
    }

    /** A line separator followed by `level` indentation units. */
    method AppendNewline()
      modifies base
      ensures base.text == old(base.text) + Newline(level)
    {
      base.AppendText(LineSeparator);
      for i := 0 to level
        invariant base.text == old(base.text) + LineSeparator + Indent(i)
      {
        base.AppendText(IndentUnit);
      }
    }

    method AppendText(text: string)
      modifies base
      ensures base.text == old(base.text) + text
    {
      base.AppendText(text);
    }

    method AppendValue(v: Value)
      modifies base
      ensures base.text == old(base.text) + ValueText(v)
    {
      base.AppendValue(v);
    }

    /** Asks the item to describe itself into this same renderer. */
    method AppendDescriptionOf(value: SelfDescribing, ghost env: Env)
      requires value.Valid() && Agrees(value.Repr(), env)
      modifies base
      ensures base.text == old(base.text) + value.TextUnder(env, level)
      decreases value.Height(), value.Rank()
    {
      match value
      case MatcherItem(m) => m.DescribeTo(this, env);
      case ChainItem(c) => c.DescribeTo(Multiline(this), env);
      case ValueItem(v) => AppendValue(v);
    }

    /** `start`, the items separated by `separator`, then `end`, which is
        written even when there are no items. */
    method AppendList(start: string, separator: string, end: string, values: seq<SelfDescribing>, ghost env: Env)
      requires forall i :: 0 <= i < |values| ==> values[i].Valid() && Agrees(values[i].Repr(), env)
      modifies base
      ensures base.text == old(base.text) + start + Join(separator, Texts(values, env, level)) + end
    {
      AppendText(start);
      if |values| > 0 {
        AppendJoined(separator, values, env);
      }
      AppendText(end);
    }

    /** The loop of `appendList` over a non-empty list: the first item, then
        each further item after a separator. */
    method AppendJoined(separator: string, values: seq<SelfDescribing>, ghost env: Env)
      requires |values| > 0
      requires forall i :: 0 <= i < |values| ==> values[i].Valid() && Agrees(values[i].Repr(), env)
      modifies base
      ensures base.text == old(base.text) + Join(separator, Texts(values, env, level))
    {
      ghost var texts := Texts(values, env, level);
      ghost var prefix := base.text;
      AppendDescriptionOf(values[0], env);
      assert texts[..1] == [texts[0]];
      var i := 1;
      while i < |values|
        invariant 1 <= i <= |values|
        invariant base.text == prefix + Join(separator, texts[..i])
      {
        AppendSeparated(separator, values[i], env);
        assert texts[i] == values[i].TextUnder(env, level);
        JoinPrefixStep(prefix, separator, texts, i);
        i := i + 1;
      }
      assert texts[..i] == texts;
    }

    /** One step of `appendList` after the first item: the separator, then
        the item. */
    method AppendSeparated(separator: string, value: SelfDescribing, ghost env: Env)
      requires value.Valid() && Agrees(value.Repr(), env)
      modifies base
      ensures base.text == old(base.text) + separator + value.TextUnder(env, level)
    {
      AppendText(separator);
      AppendDescriptionOf(value, env);
    }

    /** `appendValueList`: the values, each written as `appendValue` writes it. */
    method AppendValueList(start: string, separator: string, end: string, values: seq<Value>)
      modifies base
      ensures base.text == old(base.text) + start + Join(separator, ValueTexts(values)) + end
    {
      var items := ValueItems(values);
      AppendList(start, separator, end, items, map[]);
      ValueItemsTexts(values, map[], level);
    }
  }

  /** The `SelfDescribingValueIterator` view of a list of values. */
  function ValueItems(values: seq<Value>): (r: seq<SelfDescribing>)
    ensures |r| == |values|
    ensures forall i :: 0 <= i < |values| ==> r[i] == ValueItem(values[i])
  {
    if values == [] then [] else [ValueItem(values[0])] + ValueItems(values[1..])
  }

  function ValueTexts(values: seq<Value>): (r: seq<string>)
    ensures |r| == |values|
    ensures forall i :: 0 <= i < |values| ==> r[i] == ValueText(values[i])
  {
    if values == [] then [] else [ValueText(values[0])] + ValueTexts(values[1..])
  }

  lemma ValueItemsTexts(values: seq<Value>, env: Env, level: nat)
    ensures Texts(ValueItems(values), env, level) == ValueTexts(values)
  {
  }

  // ---------------------------------------------------------------------
  // External matchers
  // ---------------------------------------------------------------------

  /** A matcher a clause applies to a property value: an opaque one given by
      what it accepts and the texts it writes, or `is(<chain>)`. */
  datatype Matcher =
    | Simple(accepts: Value -> bool, description: string, mismatch: Value -> string)
    | Is(chain: ObjectMatcher)
  {
    ghost function Height(): nat
    {
      match this
      case Simple(_, _, _) => 0
      case Is(c) => c.Height()
    }

    ghost function Repr(): set<GetterMatcher>
    {
      match this
      case Simple(_, _, _) => {}
      case Is(c) => c.Repr()
    }

    ghost predicate Valid()
      decreases Height(), 2
    {
      match this
      case Simple(_, _, _) => true
      case Is(c) => c.Valid()
    }

    predicate Evaluable(v: Value)
      requires Valid()
      decreases Height(), 3
    {
      match this
      case Simple(_, _, _) => true
      case Is(c) => c.Evaluable(v)
    }

    predicate Accepts(v: Value)
      requires Valid() && Evaluable(v)
      decreases Height(), 3
    {
      match this
      case Simple(accepts, _, _) => accepts(v)
      case Is(c) => c.Accepts(v)
    }

    function Run(v: Value, env: Env): (e: Env)
      requires Valid() && Evaluable(v)
      ensures Unchanged(env, e, Repr())
      decreases Height(), 3
    {
      match this
      case Simple(_, _, _) => env
      case Is(c) => c.Run(v, env)
    }

    function Invocations(v: Value): seq<GetterMatcher>
      requires Valid() && Evaluable(v)
      decreases Height(), 3
    {
      match this
      case Simple(_, _, _) => []
      case Is(c) => c.Invocations(v)
    }

    /** `is(chain)` writes "is " and then the chain through the same renderer,
        which the chain re-wraps one level deeper. */
    function DescriptionUnder(env: Env, level: nat): string
      requires Valid()
      decreases Height(), 3
    {
      match this
      case Simple(_, description, _) => description
      case Is(c) => "is " + c.DescriptionUnder(env, level + 1)
    }

    predicate MismatchRenderable(env: Env, v: Value)
      requires Valid()
      decreases Height(), 3
    {
      match this
      case Simple(_, _, _) => true
      case Is(c) => c.MismatchRenderable(env, v)
    }

    /** `is(chain)` hands the mismatch to the chain, one level deeper. */
    function MismatchUnder(env: Env, v: Value, level: nat): string
      requires Valid() && MismatchRenderable(env, v)
      decreases Height(), 3
    {
      match this
      case Simple(_, _, mismatch) => mismatch(v)
      case Is(c) => c.MismatchUnder(env, v, level + 1)
    }

    method Matches(v: Value, ghost env: Env) returns (r: bool, ghost invoked: seq<GetterMatcher>)
      requires Valid() && Evaluable(v) && Agrees(Repr(), env)
      modifies Repr()
      ensures r == Accepts(v)
      ensures Agrees(Repr(), Run(v, env))
      ensures invoked == Invocations(v)
      decreases Height(), 3
    {
      match this
      case Simple(accepts, _, _) =>
        r, invoked := accepts(v), [];
      case Is(c) =>
        r, invoked := c.Matches(v, env);
    }

    method DescribeTo(d: MultilineDescription, ghost env: Env)
      requires Valid() && Agrees(Repr(), env)
      modifies d.base
      ensures d.base.text == old(d.base.text) + DescriptionUnder(env, d.level)
      decreases Height(), 5
    {
      match this
      case Simple(_, description, _) =>
        d.AppendText(description);
      case Is(c) =>
        d.AppendText("is ");
        d.AppendDescriptionOf(ChainItem(c), env);
    }

    method DescribeMismatch(v: Value, d: MultilineDescription, ghost env: Env)
      requires Valid() && MismatchRenderable(env, v) && Agrees(Repr(), env)
      modifies d.base
      ensures d.base.text == old(d.base.text) + MismatchUnder(env, v, d.level)
      decreases Height(), 4
    {
      match this
      case Simple(_, _, mismatch) =>
        d.AppendText(mismatch(v));
      case Is(c) =>
        c.DescribeMismatch(v, Multiline(d), env);
    }
  }

  // ---------------------------------------------------------------------
  // The chain: its root and its clauses
  // ---------------------------------------------------------------------

  /** A chain node: the type check at the root or a property clause. */
  datatype ObjectMatcher = TypeNode(t: TypeMatcher) | GetterNode(g: GetterMatcher)
  {
    ghost function Height(): nat
    {
      match this
      case TypeNode(_) => 0
      case GetterNode(g) => g.height
    }

    ghost function Repr(): set<GetterMatcher>
    {
      match this
      case TypeNode(_) => {}
      case GetterNode(g) => g.Repr
    }

    ghost predicate Valid()
      decreases Height(), 1
    {
      match this
      case TypeNode(t) => t.Valid()
      case GetterNode(g) => g.Valid()
    }

    /** `getObjectClass()`: the declared class of the chain. */
    function ObjectClass(): Class
    {
      match this
      case TypeNode(t) => t.clazz
      case GetterNode(g) => g.clazz
    }

    /** The type check the chain starts from. */
    function Root(): TypeMatcher
      requires Valid()
      decreases Height(), 2
    {
      match this
      case TypeNode(t) => t
      case GetterNode(g) => g.Root()
    }

    /** The clauses of the chain, oldest first. */
    function Nodes(): (ns: seq<GetterMatcher>)
      requires Valid()
      ensures forall i :: 0 <= i < |ns| ==> ns[i] in Repr() && ns[i].Valid()
      decreases Height(), 2
    {
      match this
      case TypeNode(_) => []
      case GetterNode(g) => g.Nodes()
    }

    predicate Evaluable(item: Value)
      requires Valid()
      decreases Height(), 2
    {
      match this
      case TypeNode(_) => true
      case GetterNode(g) => g.Evaluable(item)
    }

    predicate Accepts(item: Value)
      requires Valid() && Evaluable(item)
      decreases Height(), 2
    {
      match this
      case TypeNode(t) => t.Matches(item)
      case GetterNode(g) => g.Accepts(item)
    }

    function Run(item: Value, env: Env): (e: Env)
      requires Valid() && Evaluable(item)
      ensures Unchanged(env, e, Repr())
      decreases Height(), 2
    {
      match this
      case TypeNode(_) => env
      case GetterNode(g) => g.Run(item, env)
    }

    function Invocations(item: Value): seq<GetterMatcher>
      requires Valid() && Evaluable(item)
      decreases Height(), 2
    {
      match this
      case TypeNode(_) => []
      case GetterNode(g) => g.Invocations(item)
    }

    function DescriptionUnder(env: Env, level: nat): string
      requires Valid()
      decreases Height(), 2
    {
      match this
      case TypeNode(t) => t.DescriptionText()
      case GetterNode(g) => g.DescriptionUnder(env, level)
    }

    predicate MismatchRenderable(env: Env, item: Value)
      requires Valid()
      decreases Height(), 2
    {
      match this
      case TypeNode(t) => t.MismatchRenderable(item)
      case GetterNode(g) => g.MismatchRenderable(env, item)
    }

    function MismatchUnder(env: Env, item: Value, level: nat): string
      requires Valid() && MismatchRenderable(env, item)
      decreases Height(), 2
    {
      match this
      case TypeNode(t) => t.MismatchText(item)
      case GetterNode(g) => g.MismatchUnder(env, item, level)
    }

    /** `where`: a new clause whose predecessor is this chain. */
    method Where(name: string, matcher: Matcher) returns (r: Result<GetterMatcher, string>)
      requires Valid() && matcher.Valid()
      ensures r.Failure? <==> GetGetter(ObjectClass(), name).Failure?
      ensures r.Failure? ==> r.error == NoSuchGetterMessage(ObjectClass(), name)
      ensures r.Success? ==> fresh(r.value) && r.value.Valid() && r.value.Cached() == FreshCache
      ensures r.Success? ==> r.value.objectMatcher == this && r.value.getterName == name && r.value.getterMatcher == matcher
    {
      match this
      case TypeNode(t) => r := t.Where(name, matcher);
      case GetterNode(g) => r := g.Where(name, matcher);
    }

    method Matches(item: Value, ghost env: Env) returns (r: bool, ghost invoked: seq<GetterMatcher>)
      requires Valid() && Evaluable(item) && Agrees(Repr(), env)
      modifies Repr()
      ensures r == Accepts(item)
      ensures Agrees(Repr(), Run(item, env))
      ensures invoked == Invocations(item)
      decreases Height(), 2
    {
      match this
      case TypeNode(t) =>
        r, invoked := t.Matches(item), [];
      case GetterNode(g) =>
        r, invoked := g.Matches(item, env);
    }

    /** The public `describeTo`: wrap the description in a renderer, then
        describe the chain through it. */
    method DescribeTo(d: Description, ghost env: Env)
      requires Valid() && Agrees(Repr(), env)
      modifies d.Base()
      ensures d.Base().text == old(d.Base().text) + DescriptionUnder(env, d.NestedLevel())
      decreases Height(), 3
    {
      var multiline := new MultilineDescription(d);
      DescribeToMultiline(multiline, env);
    }

    /** The public `describeMismatch`: wrap, then describe the mismatch. */
    method DescribeMismatch(item: Value, d: Description, ghost env: Env)
      requires Valid() && MismatchRenderable(env, item) && Agrees(Repr(), env)
      modifies d.Base()
      ensures d.Base().text == old(d.Base().text) + MismatchUnder(env, item, d.NestedLevel())
      decreases Height(), 3
    {
      var multiline := new MultilineDescription(d);
      DescribeMismatchMultiline(item, multiline, env);
    }

    method DescribeToMultiline(d: MultilineDescription, ghost env: Env)
      requires Valid() && Agrees(Repr(), env)
      modifies d.base
      ensures d.base.text == old(d.base.text) + DescriptionUnder(env, d.level)
      decreases Height(), 2
    {
      match this
      case TypeNode(t) => t.DescribeToMultiline(d);
      case GetterNode(g) => g.DescribeToMultiline(d, env);
    }

    method DescribeMismatchMultiline(item: Value, d: MultilineDescription, ghost env: Env)
      requires Valid() && MismatchRenderable(env, item) && Agrees(Repr(), env)
      modifies d.base
      ensures d.base.text == old(d.base.text) + MismatchUnder(env, item, d.level)
      decreases Height(), 2
    {
      match this
      case TypeNode(t) => t.DescribeMismatchMultiline(item, d);
      case GetterNode(g) => g.DescribeMismatchMultiline(item, d, env);
    }
  }

  /** The root of every chain: a check that the subject is a non-null
      instance of the declared class. All of its fields are final. */
  datatype TypeMatcher = TypeMatcher(clazz: Class, objectName: string, prefix: string)
  {
    ghost predicate Valid()
    {
      objectName == clazz.simpleName && objectName != [] && prefix == GetPrefix(objectName)
    }

    /** `item != null && clazz.isInstance(item)`: the subject's runtime class
        is the declared class, or it lists the declared class among its
        superclasses. */
    function Matches(item: Value): (r: bool)
      ensures r ==> !item.Null?
      ensures !item.Null? && RuntimeClass(item) == clazz ==> r
      ensures item.Obj? && item.runtimeClass != clazz ==> (r <==> clazz in item.superclasses)
      ensures item.Int? ==> (r <==> clazz == IntegerClass)
    {
      !item.Null? && IsInstance(clazz, item)
    }

    /** "a Foo" or "an Apple". */
    function DescriptionText(): string
    {
      prefix + " " + objectName
    }

    /** `getPrefix` of the runtime class name fails on an empty name. */
    predicate MismatchRenderable(item: Value)
    {
      item.Null? || RuntimeClass(item).simpleName != []
    }

    /** "was null", or "was" and the article and simple name of the item's
        own runtime class. */
    function MismatchText(item: Value): string
      requires MismatchRenderable(item)
    {
      if item.Null? then "was null"
      else
        var itemClassName := RuntimeClass(item).simpleName;
        "was " + GetPrefix(itemClassName) + " " + itemClassName
    }

    method Where(name: string, matcher: Matcher) returns (r: Result<GetterMatcher, string>)
      requires Valid() && matcher.Valid()
      ensures r.Failure? <==> GetGetter(clazz, name).Failure?
      ensures r.Failure? ==> r.error == NoSuchGetterMessage(clazz, name)
      ensures r.Success? ==> fresh(r.value) && r.value.Valid() && r.value.Cached() == FreshCache
      ensures r.Success? ==> r.value.objectMatcher == TypeNode(this) && r.value.getterName == name && r.value.getterMatcher == matcher
    {
      r := NewGetterMatcher(TypeNode(this), name, matcher);
    }

    method DescribeToMultiline(d: MultilineDescription)
      modifies d.base
      ensures d.base.text == old(d.base.text) + DescriptionText()
    {
      d.AppendText(prefix);
      d.AppendText(" ");
      d.AppendText(objectName);
    }

    method DescribeMismatchMultiline(item: Value, d: MultilineDescription)
      requires MismatchRenderable(item)
      modifies d.base
      ensures d.base.text == old(d.base.text) + MismatchText(item)
    {
      if item.Null? {
        d.AppendText("was null");
        return;
      }
      var itemClassName := RuntimeClass(item).simpleName;
      d.AppendText("was ");
      d.AppendText(GetPrefix(itemClassName));
      d.AppendText(" ");
      d.AppendText(itemClassName);
    }
  }

  /** The `TypeMatcher` constructor: the simple name and its article are
      computed once; `getPrefix` needs a non-empty simple name. */
  function NewTypeMatcher(clazz: Class): (t: TypeMatcher)
    requires clazz.simpleName != []
    ensures t.Valid() && t.clazz == clazz
    ensures t.DescriptionText() == GetPrefix(clazz.simpleName) + " " + clazz.simpleName
  {
    TypeMatcher(clazz, clazz.simpleName, GetPrefix(clazz.simpleName))
  }

  /** The two factories: "a(Foo.class)" and "an(Apple.class)". */
  function A(clazz: Class): (t: TypeMatcher)
    requires clazz.simpleName != []
    ensures t.Valid() && t.clazz == clazz
  {
    NewTypeMatcher(clazz)
  }

  function An(clazz: Class): (t: TypeMatcher)
    requires clazz.simpleName != []
    ensures t.Valid() && t.clazz == clazz
    ensures t == A(clazz)
  {
    NewTypeMatcher(clazz)
  }

  /** `new GetterMatcher(objectMatcher, getterName, getterMatcher)`, with the
      `IllegalArgumentException` of an unresolvable getter as a failure. */
  method NewGetterMatcher(objectMatcher: ObjectMatcher, getterName: string, getterMatcher: Matcher)
    returns (r: Result<GetterMatcher, string>)
    requires objectMatcher.Valid() && getterMatcher.Valid()
    ensures r.Failure? <==> GetGetter(objectMatcher.ObjectClass(), getterName).Failure?
    ensures r.Failure? ==> r.error == NoSuchGetterMessage(objectMatcher.ObjectClass(), getterName)
    ensures r.Success? ==> fresh(r.value) && r.value.Valid() && r.value.Cached() == FreshCache
    ensures r.Success? ==> r.value.objectMatcher == objectMatcher && r.value.getterName == getterName
                             && r.value.getterMatcher == getterMatcher
  {
    var getter := GetGetter(objectMatcher.ObjectClass(), getterName);
    if getter.Failure? {
      return Failure(getter.error);
    }
    var g := new GetterMatcher(objectMatcher, getterName, getterMatcher);
    return Success(g);
  }

  /** A property clause. It wraps its predecessor, resolves its accessor
      against the chain's declared class once, and keeps the outcome, the
      returned value and the failure of its last evaluation. */
  class GetterMatcher {
    const objectMatcher: ObjectMatcher
    const getterName: string
    const getter: Method
    const getterMatcher: Matcher
    /** The declared class, copied from the predecessor. */
    const clazz: Class

    var lastResult: Outcome
    var lastReturnValue: Value
    var lastException: Option<InvocationError>

    /** The clauses reachable from this one: itself, its predecessors and the
        clauses of nested chains. */
    ghost const Repr: set<GetterMatcher>
    ghost const height: nat

    ghost predicate Valid()
      decreases height, 0
    {
      && objectMatcher.Height() < height
      && getterMatcher.Height() < height
      && Repr == {this} + objectMatcher.Repr() + getterMatcher.Repr()
      && this !in objectMatcher.Repr()
      && this !in getterMatcher.Repr()
      && clazz == objectMatcher.ObjectClass()
      && GetGetter(clazz, getterName) == Success(getter)
      && objectMatcher.Valid()
      && getterMatcher.Valid()
    }

    constructor (objectMatcher: ObjectMatcher, getterName: string, getterMatcher: Matcher)
      requires objectMatcher.Valid() && getterMatcher.Valid()
      requires GetGetter(objectMatcher.ObjectClass(), getterName).Success?
      ensures Valid() && Cached() == FreshCache
      ensures this.objectMatcher == objectMatcher && this.getterName == getterName
      ensures this.getterMatcher == getterMatcher
    {
      this.objectMatcher := objectMatcher;
      this.getterName := getterName;
      this.getterMatcher := getterMatcher;
      clazz := objectMatcher.ObjectClass();
      getter := GetGetter(objectMatcher.ObjectClass(), getterName).value;
      lastResult, lastReturnValue, lastException := Match, Null, None;
      Repr := {this} + objectMatcher.Repr() + getterMatcher.Repr();
      height := 1 + (if objectMatcher.Height() < getterMatcher.Height()
                     then getterMatcher.Height() else objectMatcher.Height());
    }

    /** The cached state of this clause. */
    function Cached(): Cache
      reads this
    {
      Cache(lastResult, lastReturnValue, lastException)
    }

    function Root(): TypeMatcher
      requires Valid()
      decreases height, 1
    {
      objectMatcher.Root()
    }

    function Nodes(): (ns: seq<GetterMatcher>)
      requires Valid()
      ensures forall i :: 0 <= i < |ns| ==> ns[i] in Repr && ns[i].Valid()
      decreases height, 1
    {
      objectMatcher.Nodes() + [this]
    }

    /** `_getter.invoke(item)` on an instance accessor succeeds or fails by
        the subject's own table. A null subject, or one that is not an
        instance of the class declaring the accessor, throws an unchecked
        error the source does not catch. */
    predicate CanInvoke(item: Value)
    {
      item.Obj? && IsInstance(getter.declaringClass, item) && getter.name in item.accessors
    }

    function Invoke(item: Value): Invocation
      requires CanInvoke(item)
    {
      item.accessors[getter.name]
    }

    /** The own test can run without an uncaught error, here and in a nested
        chain applied to the returned value. */
    predicate TestReady(item: Value)
      requires Valid()
      decreases height, 0
    {
      && CanInvoke(item)
      && (Invoke(item).Returned? ==> getterMatcher.Evaluable(Invoke(item).value))
    }

    predicate Evaluable(item: Value)
      requires Valid()
      decreases height, 1
    {
      objectMatcher.Evaluable(item) && TestReady(item)
    }

    /** The result of this clause's own test. */
    predicate OwnAccepts(item: Value)
      requires Valid() && TestReady(item)
      decreases height, 0
    {
      match Invoke(item)
      case Failed(_) => false
      case Returned(v) => getterMatcher.Accepts(v)
    }

    predicate Accepts(item: Value)
      requires Valid() && Evaluable(item)
      decreases height, 1
    {
      objectMatcher.Accepts(item) && OwnAccepts(item)
    }

    /** The caches after this clause's own test: a failed invocation records
        the failure and keeps the old value; a returned value is recorded and
        the outcome is whether the matcher accepts it. */
    function TestRun(item: Value, env: Env): (e: Env)
      requires Valid() && TestReady(item)
      ensures Unchanged(env, e, {this} + getterMatcher.Repr())
      decreases height, 0
    {
      var before := Lookup(env, this);
      match Invoke(item)
      case Failed(f) =>
        env[this := Cache(CouldNotInvoke, before.returnValue, Some(f))]
      case Returned(v) =>
        var nested := getterMatcher.Run(v, env);
        nested[this := Cache(if getterMatcher.Accepts(v) then Match else Mismatch, v, before.exception)]
    }

    /** The caches after evaluating the chain: the predecessor first, then
        this clause's own test, whatever the predecessor's result. */
    function Run(item: Value, env: Env): (e: Env)
      requires Valid() && Evaluable(item)
      ensures Unchanged(env, e, Repr)
      decreases height, 1
    {
      TestRun(item, objectMatcher.Run(item, env))
    }

    /** The accessors this clause's own test invokes: its own, then those of
        a nested chain applied to the returned value. */
    function OwnInvocations(item: Value): seq<GetterMatcher>
      requires Valid() && TestReady(item)
      decreases height, 0
    {
      match Invoke(item)
      case Failed(_) => [this]
      case Returned(v) => [this] + getterMatcher.Invocations(v)
    }

    /** The clauses whose accessor an evaluation invokes, in order. */
    function Invocations(item: Value): seq<GetterMatcher>
      requires Valid() && Evaluable(item)
      decreases height, 1
    {
      objectMatcher.Invocations(item) + OwnInvocations(item)
    }

    /** This clause's line in the description: nothing when its own last
        outcome was a match. */
    function Clause(env: Env, level: nat): string
      requires Valid()
      decreases height, 0
    {
      if Lookup(env, this).result == Match then ""
      else Newline(level) + "where " + getterName + " " + getterMatcher.DescriptionUnder(env, level)
    }

    function DescriptionUnder(env: Env, level: nat): string
      requires Valid()
      decreases height, 1
    {
      objectMatcher.DescriptionUnder(env, level) + Clause(env, level)
    }

    predicate ClauseRenderable(env: Env, item: Value)
      requires Valid()
      decreases height, 0
    {
      var c := Lookup(env, this);
      && (c.result == Mismatch ==> getterMatcher.MismatchRenderable(env, c.returnValue))
      && (c.result == CouldNotInvoke ==> !item.Null? && c.exception.Some?)
    }

    predicate MismatchRenderable(env: Env, item: Value)
      requires Valid()
      decreases height, 1
    {
      objectMatcher.MismatchRenderable(env, item) && ClauseRenderable(env, item)
    }

    /** This clause's line in the mismatch description: the matcher's
        mismatch of the cached value, or the accessor that could not be
        invoked on the item's runtime class and the failure's message. */
    function MismatchClause(env: Env, item: Value, level: nat): string
      requires Valid() && ClauseRenderable(env, item)
      decreases height, 0
    {
      var c := Lookup(env, this);
      match c.result
      case Match => ""
      case Mismatch =>
        Newline(level) + "where " + getterName + " " + getterMatcher.MismatchUnder(env, c.returnValue, level)
      case CouldNotInvoke =>
        Newline(level) + "where " + RuntimeClass(item).simpleName + "." + getter.name
          + "() could not be invoked: " + c.exception.value.message
    }

    function MismatchUnder(env: Env, item: Value, level: nat): string
      requires Valid() && MismatchRenderable(env, item)
      decreases height, 1
    {
      objectMatcher.MismatchUnder(env, item, level) + MismatchClause(env, item, level)
    }

    method Where(name: string, matcher: Matcher) returns (r: Result<GetterMatcher, string>)
      requires Valid() && matcher.Valid()
      ensures r.Failure? <==> GetGetter(clazz, name).Failure?
      ensures r.Failure? ==> r.error == NoSuchGetterMessage(clazz, name)
      ensures r.Success? ==> fresh(r.value) && r.value.Valid() && r.value.Cached() == FreshCache
      ensures r.Success? ==> r.value.objectMatcher == GetterNode(this) && r.value.getterName == name && r.value.getterMatcher == matcher
    {
      r := NewGetterMatcher(GetterNode(this), name, matcher);
    }

    /** `test`: invoke the accessor once and record what happened. */
    method Test(item: Value, ghost env: Env) returns (b: bool, ghost invoked: seq<GetterMatcher>)
      requires Valid() && TestReady(item) && Agrees(Repr, env)
      modifies Repr
      ensures b == OwnAccepts(item)
      ensures Agrees(Repr, TestRun(item, env))
      ensures invoked == OwnInvocations(item)
      decreases height, 0
    {
      var invocation := Invoke(item);
      match invocation
      case Failed(f) =>
        lastResult := CouldNotInvoke;
        lastException := Some(f);
        b, invoked := false, [this];
      case Returned(v) =>
        lastReturnValue := v;
        var accepted, nested := getterMatcher.Matches(v, env);
        if accepted {
          lastResult := Match;
          b := true;
        } else {
          lastResult := Mismatch;
          b := false;
        }
        invoked := [this] + nested;
    }

    /** Evaluates the predecessor and this clause's own test, both always. */
    method Matches(item: Value, ghost env: Env) returns (r: bool, ghost invoked: seq<GetterMatcher>)
      requires Valid() && Evaluable(item) && Agrees(Repr, env)
      modifies Repr
      ensures r == Accepts(item)
      ensures Agrees(Repr, Run(item, env))
      ensures invoked == Invocations(item)
      decreases height, 1
    {
      var objectMatches, before := objectMatcher.Matches(item, env);
      var getterMatches, own := Test(item, objectMatcher.Run(item, env));
      r := objectMatches && getterMatches;
      invoked := before + own;
    }

    method DescribeToMultiline(d: MultilineDescription, ghost env: Env)
      requires Valid() && Agrees(Repr, env)
      modifies d.base
      ensures d.base.text == old(d.base.text) + DescriptionUnder(env, d.level)
      decreases height, 1
    {
      objectMatcher.DescribeToMultiline(d, env);
      AppendClause(d, env);
    }

    /** The part of `describeTo` after the predecessor's: a new line with
        the accessor's name and the matcher's description, unless this
        clause matched. */
    method AppendClause(d: MultilineDescription, ghost env: Env)
      requires Valid() && Agrees(Repr, env)
      modifies d.base
      ensures d.base.text == old(d.base.text) + Clause(env, d.level)
      decreases height, 0, 1
    {
      assert lastResult == Lookup(env, this).result;
      ghost var clause := Clause(env, d.level);
      match lastResult
      case Mismatch | CouldNotInvoke =>
        assert clause == Newline(d.level) + "where " + getterName + " " + getterMatcher.DescriptionUnder(env, d.level);
        AppendDescribedClause(d, env);
      case Match =>
        assert clause == "";
    }

    /** The clause line of a property that did not match: its name and the
        matcher's description. */
    method AppendDescribedClause(d: MultilineDescription, ghost env: Env)
      requires Valid() && Agrees(Repr, env)
      modifies d.base
      ensures d.base.text == old(d.base.text) + Newline(d.level) + "where " + getterName + " "
                + getterMatcher.DescriptionUnder(env, d.level)
      decreases height, 0, 0
    {
      d.AppendNewline();
      d.AppendText("where ");
      d.AppendText(getterName);
      d.AppendText(" ");
      d.AppendDescriptionOf(MatcherItem(getterMatcher), env);
    }

    method DescribeMismatchMultiline(item: Value, d: MultilineDescription, ghost env: Env)
      requires Valid() && MismatchRenderable(env, item) && Agrees(Repr, env)
      modifies d.base
      ensures d.base.text == old(d.base.text) + MismatchUnder(env, item, d.level)
      decreases height, 1
    {
      objectMatcher.DescribeMismatchMultiline(item, d, env);
      AppendMismatchClause(item, d, env);
    }

    /** The part of `describeMismatch` after the predecessor's, chosen by
        this clause's last outcome. */
    method AppendMismatchClause(item: Value, d: MultilineDescription, ghost env: Env)
      requires Valid() && ClauseRenderable(env, item) && Agrees(Repr, env)
      modifies d.base
      ensures d.base.text == old(d.base.text) + MismatchClause(env, item, d.level)
      decreases height, 0, 1
    {
      assert Cached() == Lookup(env, this);
      ghost var written := d.base.text;
      ghost var clause := MismatchClause(env, item, d.level);
      match lastResult
      case Mismatch =>
        assert clause == Newline(d.level) + "where " + getterName + " " + getterMatcher.MismatchUnder(env, lastReturnValue, d.level);
        AppendValueMismatch(d, env);
      case CouldNotInvoke =>
        AppendInvocationFailure(item, d);
        assert d.base.text == written + clause;
      case Match =>
        assert clause == "";
    }

    /** The clause of a mismatch on the cached property value. */
    method AppendValueMismatch(d: MultilineDescription, ghost env: Env)
      requires Valid() && Agrees(Repr, env)
      requires lastResult == Mismatch && getterMatcher.MismatchRenderable(env, lastReturnValue)
      modifies d.base
      ensures d.base.text == old(d.base.text) + Newline(d.level) + "where " + getterName + " "
                + getterMatcher.MismatchUnder(env, lastReturnValue, d.level)
      decreases height, 0, 0
    {
      d.AppendNewline();
      d.AppendText("where ");
      d.AppendText(getterName);
      d.AppendText(" ");
      getterMatcher.DescribeMismatch(lastReturnValue, d, env);
    }

    /** The clause of an accessor that could not be invoked. */
    method AppendInvocationFailure(item: Value, d: MultilineDescription)
      requires !item.Null? && lastException.Some?
      modifies d.base
      ensures d.base.text == old(d.base.text) + Newline(d.level) + "where " + RuntimeClass(item).simpleName
                + "." + getter.name + "() could not be invoked: " + lastException.value.message
    {
      d.AppendNewline();
      d.AppendText("where ");
      d.AppendText(RuntimeClass(item).simpleName);
      d.AppendText(".");
      d.AppendText(getter.name);
      d.AppendText("() could not be invoked: ");
      d.AppendText(lastException.value.message);
    }
  }
}
