/** The two naming conventions of the matcher chain: the accessor a property
    name resolves to, and the indefinite article written before a class name. */
module Names {
  import opened Text

  /** The accessor name for a property: "get" followed by the property name
      with its first character upper-cased; the empty property names "get". */
  function MethodNameOf(getterName: string): (r: string)
    ensures |r| == |getterName| + 3
    ensures r[..3] == "get"
    ensures getterName != [] ==> r[3] == UpperCase(getterName[0]) && r[4..] == getterName[1..]
  {
    if getterName == [] then "get"
    else "get" + [UpperCase(getterName[0])] + getterName[1..]
  }

  /** Two property names resolve to the same accessor exactly when they agree
      everywhere except possibly in the case of their first letter. */
  lemma SameAccessor(a: string, b: string)
    ensures MethodNameOf(a) == MethodNameOf(b) <==>
              |a| == |b| && (a == [] || (UpperCase(a[0]) == UpperCase(b[0]) && a[1..] == b[1..]))
  {
    if MethodNameOf(a) == MethodNameOf(b) && a != [] {
      assert MethodNameOf(a)[3] == MethodNameOf(b)[3];
      assert MethodNameOf(a)[4..] == MethodNameOf(b)[4..];
    }
  }

  /** The vowels after which the article is "an". */
  const Vowels: set<char> := {'A', 'E', 'I', 'O', 'U'}

  /** The indefinite article for a class name, chosen by its first letter
      ignoring case; the name must not be empty. */
  function GetPrefix(objectName: string): (r: string)
    requires objectName != []
    ensures r == "an" || r == "a"
    ensures r == "an" <==> UpperCase(objectName[0]) in Vowels
  {
    match UpperCase(objectName[0])
    case 'A' => "an"
    case 'E' => "an"
    case 'I' => "an"
    case 'O' => "an"
    case 'U' => "an"
    case _ => "a"
  }
}
