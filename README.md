# objectmatcher chain engine, modelled in Dafny

This project models the matcher-chain engine of `org.hamcrest` in
tianyu/objectmatcher. It covers four parts:

- `TypeMatcher`, the root of every chain. It checks that the subject is a
  non-null instance of the declared class, and it picks the article "a" or
  "an" for the class name.
- `GetterMatcher`, a property clause. Each clause wraps its predecessor,
  resolves `get<Name>` on the declared class once, and keeps a single-slot
  cache of its last evaluation: the outcome, the returned value and the
  failure.
- `MultilineDescription`, the renderer that indents each clause line by
  four spaces per nesting level.
- `ForwardingObjectMatcher`, a facade that delegates every call.

Files and modules:

- `wrappers.dfy` (`Wrappers`): `Option` and `Result`.
- `text.dfy` (`Text`): upper-casing, indentation, new lines, joining, and
  decimal integer text.
- `values.dfy` (`Values`): the reflection view of subjects. A class has a
  qualified name, a simple name, the public methods it declares, and the
  public methods it inherits, each with its declaring class. A resolved accessor is a
  `Method`: a name and a declaring class. An object has a runtime class,
  its superclasses, and a table from accessor name to "returns v" or
  "fails with message m".
- `names.dfy` (`Names`): `methodNameOf` and `getPrefix`.
- `object_matcher.dfy` (`ObjectMatchers`): the chain itself.
  - `ObjectMatcher` is `TypeNode` or `GetterNode`.
  - `TypeMatcher` is a datatype, because all of its fields are final.
  - `GetterMatcher` is a class. Its three cache fields are `var`s; all
    other fields are `const`.
  - `Matcher` is an opaque constraint matcher (`Simple`) or
    `is(<nested chain>)` (`Is`).
  - `TextSink` is the plain sink; it writes values as the tests' own
    description does. `MultilineDescription` is the renderer.
- `chain_properties.dfy` (`ChainProperties`): properties of whole chains.
- `forwarding.dfy` (`Forwarding`): `ForwardingObjectMatcher`.
- `scenarios.dfy` (`Scenarios`): three worked cases.
  - An end-to-end run with the exact texts of the chain
    `a(Foo.class).where("id", is(200))`.
  - The chain `a(Dog.class).where("age", is(3))` evaluated on a `Cat`; the
    accessor is inherited from their shared superclass `Animal`.
  - A type check on two classes that share a simple name.

Caches are stated through a ghost `Env`, a map from clause to cache. A
clause missing from the map has the fresh cache: outcome `MATCH`, value
`null`, no failure. Every method that reads or writes caches takes a ghost
`env` that agrees with the caches on the chain's footprint (`Agrees`).
Each such method is specified by a pure function:

- `Run(item, env)` gives the caches after `matches`;
- `DescriptionUnder(env, level)` gives the text `describeTo` writes;
- `MismatchUnder(env, item, level)` gives the text `describeMismatch` writes.

`ChainProperties` proves the chain's promises about these functions. A
clause may appear in several places of a chain, as the Java objects allow;
the last write to its cache wins. The lemma that needs every clause to hold
its own evaluation assumes `Tree`: no clause is shared between a
predecessor chain and a nested chain.

## Model

| member | source | states |
|---|---|---|
| Names.MethodNameOf | src/main/java/org/hamcrest/GetterMatcher.java:122-128 | the accessor name has length \|name\|+3 and starts with "get"; for a non-empty name it continues with the upper-cased first letter and then the rest of the name |
| Names.SameAccessor | src/main/java/org/hamcrest/GetterMatcher.java:122-128 | two property names resolve to the same accessor iff they have the same length and agree everywhere except for the case of the first letter |
| Names.GetPrefix | src/main/java/org/hamcrest/TypeMatcher.java:43-54 | the article is "an" or "a"; it is "an" iff the upper-cased first letter is A, E, I, O or U; an empty name is excluded (`charAt(0)`) |
| Text.IndentIsSpaces | src/main/java/org/hamcrest/ObjectMatcher.java:63-69 | indentation at depth n is exactly 4·n spaces |
| Text.Newline | src/main/java/org/hamcrest/ObjectMatcher.java:63-69 | a new line at depth n is the line separator followed by 4·n spaces |
| Text.JoinSnoc | src/main/java/org/hamcrest/ObjectMatcher.java:105-120 | appending one more item adds exactly one separator, between the old items and the new one |
| ObjectMatchers.GetGetter | src/main/java/org/hamcrest/GetterMatcher.java:108-120 | resolution succeeds iff `methodNameOf(name)` is a public method of the declared class, declared or inherited, and then yields the method of that name; its declaring class is the declared class when the class declares it itself, and otherwise the class it is inherited from; on failure the message is "No such getter in <class> by the name of <name>" |
| ObjectMatchers.MultilineDescription.constructor | src/main/java/org/hamcrest/ObjectMatcher.java:52-61 | wrapping a plain description gives depth 1 over that sink; wrapping a renderer gives its depth + 1 over the same sink |
| ObjectMatchers.MultilineDescription.AppendNewline | src/main/java/org/hamcrest/ObjectMatcher.java:63-69 | the sink gains exactly the line separator and `level` indentation units; the loop invariant tracks the units written so far |
| ObjectMatchers.MultilineDescription.AppendText | src/main/java/org/hamcrest/ObjectMatcher.java:71-75 | the sink gains exactly the text |
| ObjectMatchers.MultilineDescription.AppendValue | src/main/java/org/hamcrest/ObjectMatcher.java:83-87 | the sink gains exactly what the plain sink writes for the value |
| ObjectMatchers.MultilineDescription.AppendDescriptionOf | src/main/java/org/hamcrest/ObjectMatcher.java:77-81 | the item describes itself into this same renderer; a nested chain is therefore written one level deeper |
| ObjectMatchers.MultilineDescription.AppendList | src/main/java/org/hamcrest/ObjectMatcher.java:105-120 | the sink gains `start`, then the items' texts joined by `separator`, then `end`; `end` is written for an empty list too |
| ObjectMatchers.MultilineDescription.AppendJoined | src/main/java/org/hamcrest/ObjectMatcher.java:110-114 | for a non-empty list, the sink gains the items' texts joined by the separator; the loop invariant states the join of the items written so far |
| ObjectMatchers.MultilineDescription.AppendSeparated | src/main/java/org/hamcrest/ObjectMatcher.java:112-113 | one loop step: the sink gains the separator, then the item's text |
| ObjectMatchers.MultilineDescription.AppendValueList | src/main/java/org/hamcrest/ObjectMatcher.java:89-98 | the same layout for plain values, each written as `appendValue` writes it |
| ObjectMatchers.ObjectMatcher.Where | src/main/java/org/hamcrest/TypeMatcher.java:13-16 | `where` fails iff the accessor does not resolve on the chain's declared class, with the resolution message; otherwise it gives a fresh, never-evaluated clause whose predecessor is this chain |
| ObjectMatchers.ObjectMatcher.Matches | src/main/java/org/hamcrest/GetterMatcher.java:55-62 | the verdict is `Accepts(item)`; the caches afterwards are `Run(item, env)`; the accessors invoked are `Invocations(item)` |
| ObjectMatchers.ObjectMatcher.DescribeTo | src/main/java/org/hamcrest/ObjectMatcher.java:38-41 | the public `describeTo` wraps the description and writes `DescriptionUnder` at the wrapped depth |
| ObjectMatchers.ObjectMatcher.DescribeMismatch | src/main/java/org/hamcrest/ObjectMatcher.java:43-46 | the public `describeMismatch` wraps the description and writes `MismatchUnder` at the wrapped depth |
| ObjectMatchers.ObjectMatcher.DescribeToMultiline | src/main/java/org/hamcrest/ObjectMatcher.java:34 | the protected `describeTo`, dispatched to the root or the clause, writes exactly `DescriptionUnder` at the renderer's level |
| ObjectMatchers.ObjectMatcher.DescribeMismatchMultiline | src/main/java/org/hamcrest/ObjectMatcher.java:36 | the protected `describeMismatch`, dispatched to the root or the clause, writes exactly `MismatchUnder` at the renderer's level |
| ObjectMatchers.TypeMatcher.Where | src/main/java/org/hamcrest/TypeMatcher.java:13-16 | the new clause's predecessor is this root, and its accessor is resolved on the root's class |
| ObjectMatchers.TypeMatcher.Matches | src/main/java/org/hamcrest/TypeMatcher.java:18-21 | null never matches; a subject whose runtime class is the declared class always matches; a subject of another class matches iff it lists the declared class among its superclasses; a boxed integer matches iff the declared class is `Integer` |
| ObjectMatchers.TypeMatcher.DescribeToMultiline | src/main/java/org/hamcrest/TypeMatcher.java:23-26 | writes exactly the article, a space and the declared simple name |
| ObjectMatchers.TypeMatcher.DescribeMismatchMultiline | src/main/java/org/hamcrest/TypeMatcher.java:28-41 | writes "was null" for null; otherwise "was ", the article and the simple name of the item's runtime class |
| ObjectMatchers.NewTypeMatcher | src/main/java/org/hamcrest/TypeMatcher.java:7-11 | the root keeps the class, its simple name and the article of that name, computed once |
| ObjectMatchers.A | src/main/java/org/hamcrest/ObjectMatcher.java:10-12 | `a(c)` is a valid root for class c |
| ObjectMatchers.An | src/main/java/org/hamcrest/ObjectMatcher.java:14-16 | `an(c)` is a valid root for class c, equal to `a(c)` |
| ObjectMatchers.NewGetterMatcher | src/main/java/org/hamcrest/GetterMatcher.java:17-27 | construction fails iff the accessor does not resolve on the predecessor's class; otherwise it gives a fresh clause with the fresh cache (outcome MATCH) |
| ObjectMatchers.GetterMatcher.constructor | src/main/java/org/hamcrest/GetterMatcher.java:13-27 | the clause copies the predecessor's class, holds the resolved accessor and starts with the fresh cache |
| ObjectMatchers.GetterMatcher.Where | src/main/java/org/hamcrest/GetterMatcher.java:29-32 | the new clause's predecessor is this clause; this clause is not changed |
| ObjectMatchers.GetterMatcher.TestRun | src/main/java/org/hamcrest/GetterMatcher.java:34-53 | the own test changes only this clause's cache and the caches of its nested chain |
| ObjectMatchers.GetterMatcher.Run | src/main/java/org/hamcrest/GetterMatcher.java:55-62 | evaluation changes only caches inside the clause's footprint |
| ObjectMatchers.GetterMatcher.Test | src/main/java/org/hamcrest/GetterMatcher.java:34-53 | the result is the own test's verdict; the caches become `TestRun`; the accessor is invoked once, then the nested chain's accessors |
| ObjectMatchers.GetterMatcher.Matches | src/main/java/org/hamcrest/GetterMatcher.java:55-62 | the predecessor is evaluated and then the own test, always both; the verdict is their conjunction |
| ObjectMatchers.GetterMatcher.DescribeToMultiline | src/main/java/org/hamcrest/GetterMatcher.java:64-80 | writes the predecessor's description, then this clause's line |
| ObjectMatchers.GetterMatcher.AppendClause | src/main/java/org/hamcrest/GetterMatcher.java:67-79 | the line is a new line, "where ", the name, a space and the matcher's description for MISMATCH and COULD_NOT_INVOKE; nothing for MATCH |
| ObjectMatchers.GetterMatcher.AppendDescribedClause | src/main/java/org/hamcrest/GetterMatcher.java:70-75 | the sink gains a new line, "where ", the property name, a space and the matcher's description one level deeper for a nested chain |
| ObjectMatchers.GetterMatcher.DescribeMismatchMultiline | src/main/java/org/hamcrest/GetterMatcher.java:82-106 | writes the predecessor's mismatch, then this clause's mismatch line chosen by its cached outcome |
| ObjectMatchers.GetterMatcher.AppendMismatchClause | src/main/java/org/hamcrest/GetterMatcher.java:85-105 | the sink gains this clause's mismatch line as its cached outcome selects it: the matcher's mismatch of the cached value on MISMATCH, the invocation failure on COULD_NOT_INVOKE, nothing on MATCH |
| ObjectMatchers.GetterMatcher.AppendValueMismatch | src/main/java/org/hamcrest/GetterMatcher.java:86-93 | on MISMATCH: a new line, "where <name> ", then the matcher's mismatch of the cached value |
| ObjectMatchers.GetterMatcher.AppendInvocationFailure | src/main/java/org/hamcrest/GetterMatcher.java:94-102 | on COULD_NOT_INVOKE: a new line, "where <runtime simple name>.<accessor>() could not be invoked: <message>" |
| ChainProperties.OwnOutcome | src/main/java/org/hamcrest/GetterMatcher.java:34-53 | the recorded outcome is COULD_NOT_INVOKE iff the invocation failed, and MATCH iff the own test accepts |
| ChainProperties.EvaluableIffNodesReady | src/main/java/org/hamcrest/GetterMatcher.java:34-45 | a chain can be evaluated without an uncaught error iff every clause's accessor can be invoked on the subject |
| ChainProperties.AcceptsIffAllClauses | src/main/java/org/hamcrest/GetterMatcher.java:55-62 | `matches` holds iff the root's type check and every clause's own test hold |
| ChainProperties.FlatInvokesEachClauseOnce | src/main/java/org/hamcrest/GetterMatcher.java:55-62 | with opaque matchers, evaluation invokes every clause's accessor exactly once, oldest first, with no short-circuit |
| ChainProperties.NodesDistinct | src/main/java/org/hamcrest/GetterMatcher.java:17-27 | no clause occurs twice in its own chain, so "each clause once" is a statement about distinct clauses |
| ChainProperties.EveryClauseInvoked | src/main/java/org/hamcrest/GetterMatcher.java:55-62 | with nested chains too, every clause's accessor is invoked |
| ChainProperties.RunRecordsOwnOutcome | src/main/java/org/hamcrest/GetterMatcher.java:34-53 | after evaluation, each clause of a tree-shaped chain holds its own outcome, the returned value when there was one, and the failure when there was one |
| ChainProperties.AcceptedRunMatchesAll | src/main/java/org/hamcrest/GetterMatcher.java:46-48 | an accepted subject leaves every clause the chain reaches with outcome MATCH, clauses of nested chains and clauses shared between places included |
| ChainProperties.MatcherAcceptedRunMatchesAll | src/main/java/org/hamcrest/GetterMatcher.java:46-48 | a value that a matcher accepts leaves every clause of its nested chain with outcome MATCH |
| ChainProperties.DescriptionFlattens | src/main/java/org/hamcrest/GetterMatcher.java:64-80 | the description is the root's text followed by the clause lines, oldest clause first |
| ChainProperties.MismatchRenderableIffAll | src/main/java/org/hamcrest/GetterMatcher.java:82-106 | the mismatch can be written without an uncaught error iff the root's line and every clause's line can |
| ChainProperties.MismatchFlattens | src/main/java/org/hamcrest/GetterMatcher.java:82-106 | the mismatch is the root's mismatch text followed by the clause mismatch lines, oldest clause first |
| ChainProperties.MatchedClausesSilent | src/main/java/org/hamcrest/GetterMatcher.java:77-79 | clauses whose outcome is MATCH write nothing, in the description or in the mismatch |
| ChainProperties.SilentWhenFresh | src/main/java/org/hamcrest/GetterMatcher.java:13 | a chain that was never evaluated describes itself by its root alone |
| ChainProperties.SilentAfterAccept | src/main/java/org/hamcrest/GetterMatcher.java:64-106 | after an accepted subject, the description and the mismatch are the root's texts alone, for every chain |
| ChainProperties.ClauseReflectsOwnOutcome | src/main/java/org/hamcrest/GetterMatcher.java:67-79 | a clause's line is empty iff its own outcome is MATCH, whatever the other clauses hold; otherwise it names the property and the matcher's description |
| ChainProperties.ClauseIndented | src/main/java/org/hamcrest/ObjectMatcher.java:63-69 | every clause line starts with a new line indented by exactly four spaces per level |
| ChainProperties.NestedChainOneLevelDeeper | src/main/java/org/hamcrest/ObjectMatcher.java:52-61 | `is(<chain>)` writes "is ", the nested root's text, and the nested clause lines one level deeper than the enclosing renderer |
| ChainProperties.NestedMismatchOneLevelDeeper | src/main/java/org/hamcrest/ObjectMatcher.java:52-61 | the mismatch of `is(<chain>)` is the nested root's mismatch text followed by the nested clause mismatch lines one level deeper than the enclosing renderer |
| ChainProperties.MismatchIgnoresAccessors | src/main/java/org/hamcrest/GetterMatcher.java:82-106 | the mismatch text depends only on the caches and the subject's runtime class, so describing never invokes an accessor |
| ChainProperties.ClassIsRootClass | src/main/java/org/hamcrest/ObjectMatcher.java:20-30 | every clause of a chain has the root's declared class |
| Forwarding.ForwardingObjectMatcher.constructor | src/main/java/org/hamcrest/ForwardingObjectMatcher.java:6-8 | the wrapped chain is fixed at construction |
| Forwarding.ForwardingObjectMatcher.Where | src/main/java/org/hamcrest/ForwardingObjectMatcher.java:10-12 | the wrapped chain's `where`: the new clause's predecessor is the wrapped chain |
| Forwarding.ForwardingObjectMatcher.Matches | src/main/java/org/hamcrest/ForwardingObjectMatcher.java:14-17 | exactly the wrapped chain's verdict and cache updates |
| Forwarding.ForwardingObjectMatcher.DescribeMismatch | src/main/java/org/hamcrest/ForwardingObjectMatcher.java:19-22 | writes exactly the wrapped chain's mismatch to the same description |
| Forwarding.ForwardingObjectMatcher.DescribeTo | src/main/java/org/hamcrest/ForwardingObjectMatcher.java:24-27 | writes exactly the wrapped chain's description to the same description |
| Scenarios.IdIs200Run | src/test/java/org/hamcrest/ObjectMatcherTest.java:52-57 | on a Foo whose id is 1, `a(Foo.class).where("id", is(200))` resolves the accessor `getId`, invokes it exactly once, rejects the subject and caches MISMATCH with value 1 |
| Scenarios.IdIs200Clause | src/test/java/org/hamcrest/ObjectMatcherTest.java:56 | the clause's description line is then "\n    where id is 200" |
| Scenarios.IdIs200MismatchClause | src/test/java/org/hamcrest/ObjectMatcherTest.java:57 | the clause's mismatch line is then "\n    where id was 1" |
| Scenarios.IdIs200Description | src/test/java/org/hamcrest/ObjectMatcherTest.java:56-57 | the description is then "a Foo\n    where id is 200" |
| Scenarios.IdIs200Mismatch | src/test/java/org/hamcrest/ObjectMatcherTest.java:56-58 | the mismatch is then "was a Foo\n    where id was 1" |
| Scenarios.SingleClauseMismatch | src/test/java/org/hamcrest/ObjectMatcherTest.java:52-59 | building, evaluating and describing the chain gives a rejection and those two texts |
| Scenarios.SiblingSubjectEvaluates | src/main/java/org/hamcrest/GetterMatcher.java:34-53 | a `Dog` clause whose accessor `getAge` is declared by `Animal` is invoked on a `Cat` without error; the type check rejects the `Cat`, the clause's own test accepts it, and the clause caches MATCH |
| Scenarios.SiblingSubjectMismatch | src/main/java/org/hamcrest/TypeMatcher.java:28-41 | after that evaluation the mismatch is the root's alone, "was a Cat" |
| Scenarios.PackagesDistinguishClasses | src/main/java/org/hamcrest/TypeMatcher.java:18-21 | `a(api.User.class)` rejects a `db.User` although both have the simple name `User` and the same accessor; the mismatch is "was an User", the article chosen by the first letter alone |

## Left out

- Java reflection is abstracted. `Class.getMethod` becomes membership in the class's method names. `Method.invoke` becomes the subject's accessor table. `isInstance` becomes "same runtime class or a listed superclass". Classes are compared as values: qualified name, simple name and methods. Two classes of the same qualified name loaded by different class loaders are not modelled. `getSimpleName` becomes the class's simple-name field.
- Static accessors are not modelled. `Class.getMethod` also finds public static methods, and `Method.invoke` ignores the subject for them, so Java evaluates them on null or unrelated subjects; the model treats every accessor as an instance accessor.
- `IllegalAccessException` and `InvocationTargetException` become one failure carrying a message.
- Some Java errors are not caught by the source, so they become preconditions instead of being modelled:
  - invoking an instance accessor on a null subject, or on a subject that is not an instance of the class declaring the accessor (`Evaluable`, `TestReady`). A subject of a sibling class that inherits the accessor from a shared superclass is evaluated, as in Java.
  - `getPrefix` on an empty simple name (`NewTypeMatcher`, `MismatchRenderable`);
  - `item.getClass()` on a null item in the COULD_NOT_INVOKE mismatch line (`ClauseRenderable`).
- A failure whose `getMessage()` is null is not modelled: messages are always strings.
- `System.lineSeparator()` is fixed to "\n".
- `Character.toUpperCase` is modelled for ASCII letters only; other characters are unchanged.
- `String.valueOf` of an object is modelled as the class's simple name. Boxed integers are modelled as `Integer` with the accessor `intValue` and no superclasses.
- Boxed integers carry no accessor table, so a clause applied directly to an `Integer` subject is outside the model (`CanInvoke` requires an object).
- The class hierarchy is not checked for consistency: an object's listed superclasses and a class's inherited methods are given independently.
- The fluent `return this` of the renderer's append methods is not modelled. The methods return nothing, and the same renderer is used for the next call.
- `ObjectMatchers.MultilineDescription.AppendList`: the iterator over values is modelled as a sequence.
- The varargs overload of `appendValueList` is the same operation as the `Iterable` overload, so it is not modelled separately.
- External Hamcrest types (`BaseMatcher`, `Matcher`, `Description`, `SelfDescribing`, `SelfDescribingValueIterator`, `is`, `equalTo`, `nullValue`, `not`) are opaque collaborators. A matcher is either `Simple`, a predicate with its description and mismatch texts, or `Is(<chain>)`.
- Thread safety of the per-clause cache is not modelled; the model is sequential.
- Java generics carry no behaviour and are dropped.
- `ChainProperties.RunRecordsOwnOutcome` is stated for tree-shaped chains only. If a clause is shared between a predecessor chain and a nested chain, a later evaluation overwrites its cache, as in Java.
- `ChainProperties.FlatInvokesEachClauseOnce` gives the exact invocation sequence only for chains without nested chains. With nesting, `ChainProperties.EveryClauseInvoked` states only that every top-level clause is invoked.
