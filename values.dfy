/** The subjects a matcher is applied to, with Java reflection abstracted:
    a class is its qualified and simple names plus its public zero-argument
    methods, an object carries its runtime class, the classes it is an
    instance of through inheritance, and a table from accessor name to what
    invoking that accessor on this object does. */
module Values {
  import opened Text

  /** A class as reflection sees it: `getName()`, `getSimpleName()`, the
      public methods it declares itself, and the public methods it inherits,
      each with the class that declares it. Two classes of different
      packages that share a simple name differ in `qualifiedName`. */
  datatype Class = Class(qualifiedName: string, simpleName: string, declared: set<string>, inherited: map<string, Class>)
  {
    /** The names `getMethod(name)` finds. */
    function Methods(): set<string>
    {
      declared + inherited.Keys
    }
  }

  /** A `java.lang.reflect.Method`: its name and the class that declares it. */
  datatype Method = Method(name: string, declaringClass: Class)

  /** The failure of an accessor invocation: an `IllegalAccessException` or
      an `InvocationTargetException`, reduced to its message. */
  datatype InvocationError = InvocationError(message: string)

  datatype Value =
    | Null
    | Int(i: int)
    | Obj(runtimeClass: Class, superclasses: set<Class>, accessors: map<string, Invocation>)

  /** What `Method.invoke` does on one object: return a value or fail. */
  datatype Invocation = Returned(value: Value) | Failed(error: InvocationError)

  /** The class of a boxed integer. */
  const IntegerClass: Class := Class("java.lang.Integer", "Integer", {"intValue"}, map[])

  /** `v.getClass()`, defined for every non-null value. */
  function RuntimeClass(v: Value): Class
    requires !v.Null?
  {
    if v.Int? then IntegerClass else v.runtimeClass
  }

  /** `clazz.isInstance(v)`: `v` is not null and its runtime class is `clazz`
      or a subclass of it. */
  predicate IsInstance(clazz: Class, v: Value)
  {
    match v
    case Null => false
    case Int(_) => clazz == IntegerClass
    case Obj(c, supers, _) => c == clazz || clazz in supers
  }

  /** `String.valueOf(v)`, which a plain description writes for `appendValue`;
      an object is written by its class's simple name. */
  function ValueText(v: Value): string
  {
    match v
    case Null => "null"
    case Int(i) => IntText(i)
    case Obj(c, _, _) => c.simpleName
  }
}
