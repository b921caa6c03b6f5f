/** A matcher that exposes the chain protocol by delegating every call to a
    chain fixed at construction; it never becomes a node of a chain itself. */
module Forwarding {
  import opened Wrappers
  import opened Values
  import opened ObjectMatchers

  class ForwardingObjectMatcher {
    const objectMatcher: ObjectMatcher

    ghost predicate Valid()
    {
      objectMatcher.Valid()
    }

    constructor (objectMatcher: ObjectMatcher)
      requires objectMatcher.Valid()
      ensures Valid() && this.objectMatcher == objectMatcher
    {
      this.objectMatcher := objectMatcher;
    }

    /** The wrapped chain's `where`: the new clause's predecessor is the
        wrapped chain, not this facade. */
    method Where(name: string, matcher: Matcher) returns (r: Result<GetterMatcher, string>)
      requires Valid() && matcher.Valid()
      ensures r.Failure? <==> GetGetter(objectMatcher.ObjectClass(), name).Failure?
      ensures r.Failure? ==> r.error == NoSuchGetterMessage(objectMatcher.ObjectClass(), name)
      ensures r.Success? ==> fresh(r.value) && r.value.Valid() && r.value.Cached() == FreshCache
      ensures r.Success? ==> r.value.objectMatcher == objectMatcher && r.value.getterName == name
                               && r.value.getterMatcher == matcher
    {
      r := objectMatcher.Where(name, matcher);
    }

    /** Exactly the wrapped chain's verdict and evaluation. */
    method Matches(item: Value, ghost env: Env) returns (r: bool, ghost invoked: seq<GetterMatcher>)
      requires Valid() && objectMatcher.Evaluable(item) && Agrees(objectMatcher.Repr(), env)
      modifies objectMatcher.Repr()
      ensures r == objectMatcher.Accepts(item)
      ensures Agrees(objectMatcher.Repr(), objectMatcher.Run(item, env))
      ensures invoked == objectMatcher.Invocations(item)
    {
      r, invoked := objectMatcher.Matches(item, env);
    }

    /** Writes exactly what the wrapped chain writes, to the same description. */
    method DescribeMismatch(item: Value, d: Description, ghost env: Env)
      requires Valid() && objectMatcher.MismatchRenderable(env, item) && Agrees(objectMatcher.Repr(), env)
      modifies d.Base()
      ensures d.Base().text == old(d.Base().text) + objectMatcher.MismatchUnder(env, item, d.NestedLevel())
    {
      objectMatcher.DescribeMismatch(item, d, env);
    }

    method DescribeTo(d: Description, ghost env: Env)
      requires Valid() && Agrees(objectMatcher.Repr(), env)
      modifies d.Base()
      ensures d.Base().text == old(d.Base().text) + objectMatcher.DescriptionUnder(env, d.NestedLevel())
    {
      objectMatcher.DescribeTo(d, env);
    }
  }
}
