/** The fixed catalog of field value types, `VALUE_TYPES`, and the case-insensitive lookup into it. */
module Catalog {
  import opened Wrappers
  import opened JavaText

  /** The value kinds a field may have: the classes `VALUE_TYPES` maps to. */
  datatype ValueKind = Byte | Boolean | Char | Int | Short | Float | Long | Double | String

  /** `VALUE_TYPES`: lower-case type name to value kind. */
  const ValueTypes: map<string, ValueKind> := map[
    "byte" := Byte,
    "boolean" := Boolean,
    "char" := Char,
    "int" := Int,
    "short" := Short,
    "float" := Float,
    "long" := Long,
    "double" := Double,
    "string" := String
  ]

  /** The catalog name under which each kind is filed. */
  function KeyOf(k: ValueKind): string
  {
    match k
    case Byte => "byte"
    case Boolean => "boolean"
    case Char => "char"
    case Int => "int"
    case Short => "short"
    case Float => "float"
    case Long => "long"
    case Double => "double"
    case String => "string"
  }

  /** The catalog pairs each of the nine kinds with its name, and holds nothing else. */
  lemma CatalogIsExactlyTheNineKinds()
    ensures forall k :: KeyOf(k) in ValueTypes && ValueTypes[KeyOf(k)] == k
    ensures forall name :: name in ValueTypes ==> KeyOf(ValueTypes[name]) == name
  {
  }

  /** `VALUE_TYPES.get(typeName.toLowerCase())`; `None` is the `null` of a name not in the catalog. */
  function TypeOf(typeName: string): (kind: Option<ValueKind>)
    ensures kind.Some? <==> ToLowerCase(typeName) in ValueTypes
  {
    var key := ToLowerCase(typeName);
    if key in ValueTypes then Some(ValueTypes[key]) else None
  }

  /**
   * Lookup is case-insensitive and exact otherwise: a type name denotes kind `k`
   * exactly when its lower-case form is the catalog name of `k`, and it denotes
   * some kind exactly when its lower-case form is one of the nine names.
   */
  lemma TypeOfIgnoresCase(typeName: string)
    ensures forall k :: TypeOf(typeName) == Some(k) <==> ToLowerCase(typeName) == KeyOf(k)
    ensures TypeOf(typeName).Some? <==> exists k :: ToLowerCase(typeName) == KeyOf(k)
  {
    CatalogIsExactlyTheNineKinds();
    if TypeOf(typeName).Some? {
      assert ToLowerCase(typeName) == KeyOf(TypeOf(typeName).value);
    }
  }

  /** Every catalog name is spelled with lower-case ASCII letters only. */
  lemma KeysAreLowerCase(k: ValueKind)
    ensures forall i :: 0 <= i < |KeyOf(k)| ==> 'a' <= KeyOf(k)[i] <= 'z'
  {
  }

  /** Any mix of upper- and lower-case letters spelling a catalog name finds that name's kind. */
  lemma {:induction false} TypeOfAnyCase(k: ValueKind, spelled: string)
    requires |spelled| == |KeyOf(k)|
    requires forall i :: 0 <= i < |spelled| ==> spelled[i] == KeyOf(k)[i] || spelled[i] == ToUpperChar(KeyOf(k)[i])
    ensures TypeOf(spelled) == Some(k)
  {
    KeysAreLowerCase(k);
    var key := KeyOf(k);
    forall i | 0 <= i < |spelled|
      ensures ToLowerCase(spelled)[i] == key[i]
    {
      assert 'a' <= key[i] <= 'z';
    }
    assert ToLowerCase(spelled) == key;
    CatalogIsExactlyTheNineKinds();
  }

  /** Upper-case `INT` and mixed-case `String` are found; `wibble` and `integer` are not. */
  lemma LookupExamples()
    ensures TypeOf("INT") == Some(Int)
    ensures TypeOf("int") == Some(Int)
    ensures TypeOf("String") == Some(String)
    ensures TypeOf("wibble") == None
    ensures TypeOf("integer") == None
  {
    TypeOfAnyCase(Int, "INT");
    TypeOfAnyCase(Int, "int");
    TypeOfAnyCase(String, "String");
    assert ToLowerCase("wibble") == "wibble";
    assert ToLowerCase("integer") == "integer";
  }
}
