/** End-to-end runs of the chain on a concrete class, with the exact texts
    the chain writes. */
module Scenarios {
  import opened Wrappers
  import opened Text
  import opened Values
  import opened Names
  import opened ObjectMatchers

  /** A class `Foo` with the accessors `getId` and `getBar`. */
  const FooClass: Class := Class("org.hamcrest.Foo", "Foo", {"getId", "getBar"}, map[])

  /** A `Foo` whose `getId` returns `id` and whose `getBar` returns `bar`. */
  function Foo(id: int, bar: Value): Value
  {
    Obj(FooClass, {}, map["getId" := Returned(Int(id)), "getBar" := Returned(bar)])
  }

  /** `is(n)` on integers, with the texts written into the tests' plain
      description. */
  function IsInt(n: int): Matcher
  {
    Simple(v => v == Int(n), "is " + ValueText(Int(n)), v => "was " + ValueText(v))
  }

  /** The clause `where("id", is(200))` on `a(Foo.class)`. */
  ghost predicate IdIs200(g: GetterMatcher)
  {
    && g.Valid()
    && g.objectMatcher == TypeNode(A(FooClass))
    && g.getterName == "id"
    && g.getterMatcher == IsInt(200)
  }

  /** Evaluating the clause on a `Foo` whose id is 1 invokes `getId` once, sees
      1, and records a mismatch. */
  lemma IdIs200Run(g: GetterMatcher)
    requires IdIs200(g)
    ensures GetterNode(g).Evaluable(Foo(1, Null)) && !GetterNode(g).Accepts(Foo(1, Null))
    ensures GetterNode(g).Run(Foo(1, Null), map[]) == AfterRun(g)
    ensures g.getter.name == "getId"
    ensures GetterNode(g).Invocations(Foo(1, Null)) == [g]
  {
    var item := Foo(1, Null);
    var chain := GetterNode(g);
    assert MethodNameOf("id") == "getId" by {
      assert UpperCase('i') == 'I';
    }
    assert g.getter == Method("getId", FooClass) && g.clazz == FooClass && g.CanInvoke(item);
    assert g.Invoke(item) == Returned(Int(1));
    assert g.TestReady(item) && !g.OwnAccepts(item);
    assert TypeNode(A(FooClass)).Run(item, map[]) == map[];
    assert !g.getterMatcher.Accepts(Int(1)) && g.getterMatcher.Run(Int(1), map[]) == map[];
    assert chain.Run(item, map[]) == g.TestRun(item, map[]);
    assert g.OwnInvocations(item) == [g] + g.getterMatcher.Invocations(Int(1)) == [g];
    assert chain.Invocations(item) == TypeNode(A(FooClass)).Invocations(item) + g.OwnInvocations(item);
  }

  /** The fixed texts the scenarios are built from. */
  lemma NewlineAtDepthOne()
    ensures Newline(1) == "\n    "
  {
    assert Indent(1) == "    ";
  }

  lemma IntTexts()
    ensures ValueText(Int(200)) == "200" && ValueText(Int(1)) == "1"
  {
    assert IntText(20) == "20";
  }

  lemma FooRootTexts()
    ensures A(FooClass).DescriptionText() == "a Foo"
    ensures A(FooClass).MismatchText(Foo(1, Null)) == "was a Foo"
  {
    assert GetPrefix("Foo") == "a";
  }

  /** The caches after that evaluation. */
  function AfterRun(g: GetterMatcher): Env
  {
    map[g := Cache(Mismatch, Int(1), None)]
  }

  /** The clause's description line after that evaluation. */
  lemma IdIs200Clause(g: GetterMatcher)
    requires IdIs200(g)
    ensures g.Clause(AfterRun(g), 1) == Newline(1) + "where " + "id" + " " + "is 200"
  {
    assert Lookup(AfterRun(g), g).result == Mismatch;
    IntTexts();
    assert g.getterMatcher.DescriptionUnder(AfterRun(g), 1) == "is 200";
  }

  lemma DescriptionLiteral()
    ensures "a Foo" + ("\n    " + "where " + "id" + " " + "is 200") == "a Foo\n    where id is 200"
  {
  }

  /** After that evaluation the description names the clause on a line
      indented by four spaces. */
  lemma IdIs200Description(g: GetterMatcher)
    requires IdIs200(g)
    ensures GetterNode(g).DescriptionUnder(AfterRun(g), 1) == "a Foo\n    where id is 200"
  {
    var env := AfterRun(g);
    NewlineAtDepthOne();
    FooRootTexts();
    IdIs200Clause(g);
    assert GetterNode(g).DescriptionUnder(env, 1)
             == TypeNode(A(FooClass)).DescriptionUnder(env, 1) + g.Clause(env, 1);
    DescriptionLiteral();
  }

  /** The clause's mismatch line after that evaluation. */
  lemma IdIs200MismatchClause(g: GetterMatcher)
    requires IdIs200(g)
    ensures g.ClauseRenderable(AfterRun(g), Foo(1, Null))
    ensures g.MismatchClause(AfterRun(g), Foo(1, Null), 1) == Newline(1) + "where " + "id" + " " + "was 1"
  {
    var env := AfterRun(g);
    assert Lookup(env, g) == Cache(Mismatch, Int(1), None);
    IntTexts();
    assert g.getterMatcher.MismatchUnder(env, Int(1), 1) == "was 1";
  }

  lemma MismatchLiteral()
    ensures "was a Foo" + ("\n    " + "where " + "id" + " " + "was 1") == "was a Foo\n    where id was 1"
  {
  }

  /** ... and the mismatch reports the value the clause saw. */
  lemma IdIs200Mismatch(g: GetterMatcher)
    requires IdIs200(g)
    ensures GetterNode(g).MismatchRenderable(AfterRun(g), Foo(1, Null))
    ensures GetterNode(g).MismatchUnder(AfterRun(g), Foo(1, Null), 1) == "was a Foo\n    where id was 1"
  {
    var item := Foo(1, Null);
    var env := AfterRun(g);
    NewlineAtDepthOne();
    FooRootTexts();
    IdIs200MismatchClause(g);
    assert A(FooClass).MismatchRenderable(item);
    assert GetterNode(g).MismatchUnder(env, item, 1)
             == TypeNode(A(FooClass)).MismatchUnder(env, item, 1) + g.MismatchClause(env, item, 1);
    MismatchLiteral();
  }

  /** `a(Foo.class).where("id", is(200))` applied to a `Foo` whose id is 1:
      the subject is rejected, the description names the failing clause on
      a line indented by four spaces, and the mismatch reports the value
      the clause saw. */
  method SingleClauseMismatch() returns (matched: bool, description: string, mismatch: string)
    ensures !matched
    ensures description == "a Foo\n    where id is 200"
    ensures mismatch == "was a Foo\n    where id was 1"
  {
    var item := Foo(1, Null);
    var root := A(FooClass);
    assert MethodNameOf("id") == "getId" by {
      assert UpperCase('i') == 'I';
    }
    var built := root.Where("id", IsInt(200));
    assert built.Success?;
    var g := built.value;
    var chain := GetterNode(g);
    IdIs200Run(g);
    assert chain.Run(item, map[]) == AfterRun(g);
    IdIs200Description(g);
    IdIs200Mismatch(g);
    assert Agrees(chain.Repr(), map[]);
    ghost var invoked;
    matched, invoked := chain.Matches(item, map[]);
    ghost var env := chain.Run(item, map[]);
    var sink := new TextSink();
    chain.DescribeTo(Plain(sink), env);
    description := sink.text;
    var mismatchSink := new TextSink();
    chain.DescribeMismatch(item, Plain(mismatchSink), env);
    mismatch := mismatchSink.text;
  }

  /** `Animal` declares `getAge`; `Dog` and `Cat` inherit it. */
  const AnimalClass: Class := Class("zoo.Animal", "Animal", {"getAge"}, map[])
  const DogClass: Class := Class("zoo.Dog", "Dog", {}, map["getAge" := AnimalClass])
  const CatClass: Class := Class("zoo.Cat", "Cat", {}, map["getAge" := AnimalClass])

  /** A `Cat` whose `getAge` returns `age`. */
  function Cat(age: int): Value
  {
    Obj(CatClass, {AnimalClass}, map["getAge" := Returned(Int(age))])
  }

  /** The clause `where("age", is(3))` on `a(Dog.class)`. */
  ghost predicate DogAgeIs3(g: GetterMatcher)
  {
    && g.Valid()
    && g.objectMatcher == TypeNode(A(DogClass))
    && g.getterName == "age"
    && g.getterMatcher == IsInt(3)
  }

  /** The accessor of a `Dog` clause is `Animal.getAge`, so it can be
      invoked on a `Cat`: the chain evaluates the `Cat` without an error,
      rejects it by its type check alone, and the clause records MATCH. */
  lemma SiblingSubjectEvaluates(g: GetterMatcher)
    requires DogAgeIs3(g)
    ensures g.getter == Method("getAge", AnimalClass)
    ensures GetterNode(g).Evaluable(Cat(3))
    ensures !GetterNode(g).Root().Matches(Cat(3)) && g.OwnAccepts(Cat(3))
    ensures !GetterNode(g).Accepts(Cat(3))
    ensures GetterNode(g).Run(Cat(3), map[]) == map[g := Cache(Match, Int(3), None)]
  {
    var item := Cat(3);
    assert MethodNameOf("age") == "getAge" by {
      assert UpperCase('a') == 'A';
    }
    assert g.getter == Method("getAge", AnimalClass);
    assert g.CanInvoke(item) && g.Invoke(item) == Returned(Int(3));
    assert g.TestReady(item) && g.OwnAccepts(item);
    assert A(DogClass).clazz == DogClass;
    assert !IsInstance(DogClass, item) && !A(DogClass).Matches(item);
    assert g.Root() == TypeNode(A(DogClass)).Root() == A(DogClass);
    assert GetterNode(g).Root() == g.Root();
    assert !TypeNode(A(DogClass)).Accepts(item);
    assert GetterNode(g).Accepts(item) == g.Accepts(item);
    assert TypeNode(A(DogClass)).Run(item, map[]) == map[];
    assert g.getterMatcher.Run(Int(3), map[]) == map[];
    assert GetterNode(g).Run(item, map[]) == g.TestRun(item, map[]);
  }

  /** After that evaluation the mismatch is the type check's alone. */
  lemma SiblingSubjectMismatch(g: GetterMatcher)
    requires DogAgeIs3(g)
    ensures GetterNode(g).MismatchRenderable(map[g := Cache(Match, Int(3), None)], Cat(3))
    ensures GetterNode(g).MismatchUnder(map[g := Cache(Match, Int(3), None)], Cat(3), 1) == "was a Cat"
  {
    var env := map[g := Cache(Match, Int(3), None)];
    assert GetPrefix("Cat") == "a";
    assert A(DogClass).MismatchText(Cat(3)) == "was a Cat";
    assert Lookup(env, g).result == Match;
    assert g.MismatchClause(env, Cat(3), 1) == "";
    assert GetterNode(g).MismatchUnder(env, Cat(3), 1)
             == TypeNode(A(DogClass)).MismatchUnder(env, Cat(3), 1) + g.MismatchClause(env, Cat(3), 1);
  }

  /** Two classes `api.User` and `db.User` with the same simple name and the
      same accessor. */
  const ApiUserClass: Class := Class("api.User", "User", {"getId"}, map[])
  const DbUserClass: Class := Class("db.User", "User", {"getId"}, map[])

  /** A `db.User` whose `getId` returns `id`. */
  function DbUser(id: int): Value
  {
    Obj(DbUserClass, {}, map["getId" := Returned(Int(id))])
  }

  /** The type check compares classes, not simple names: `a(api.User.class)`
      rejects a `db.User`, and the mismatch names it by its simple name,
      with the article chosen by its first letter alone. */
  lemma PackagesDistinguishClasses()
    ensures A(ApiUserClass).Valid() && !A(ApiUserClass).Matches(DbUser(1))
    ensures A(ApiUserClass).MismatchRenderable(DbUser(1))
    ensures A(ApiUserClass).MismatchText(DbUser(1)) == "was an User"
  {
    assert ApiUserClass != DbUserClass by {
      assert ApiUserClass.qualifiedName[0] == 'a' && DbUserClass.qualifiedName[0] == 'd';
    }
    assert A(ApiUserClass).clazz == ApiUserClass;
    assert UpperCase('U') == 'U' && GetPrefix("User") == "an";
  }
}
