/** The type registry (`_type_map`) and the validation `HiveArray.__init__`
    performs on its item type. */
module Types {
  import opened Wrappers
  import opened Text

  /** The SQLAlchemy type classes the registry names, and `NullType`, which
      reflection substitutes for a type name it does not know. */
  datatype TypeClass =
    | Boolean | TinyInteger | SmallInteger | Integer | BigInteger | Float | String
    | HiveDate | HiveTimestamp | HiveArray | HiveDecimal | NullType

  /** `_type_map`: Hive type names as `DESCRIBE` prints them. */
  const TypeMap: map<string, TypeClass> := map[
    "boolean" := Boolean,
    "tinyint" := TinyInteger,
    "smallint" := SmallInteger,
    "int" := Integer,
    "bigint" := BigInteger,
    "float" := Float,
    "double" := Float,
    "string" := String,
    "varchar" := String,
    "char" := String,
    "date" := HiveDate,
    "timestamp" := HiveTimestamp,
    "binary" := String,
    "array" := HiveArray,
    "map" := String,
    "struct" := String,
    "uniontype" := String,
    "decimal" := HiveDecimal
  ]

  /** A non-empty word of the letters `a` to `z`. */
  predicate IsLowerWord(s: string) {
    s != [] && forall c | c in s :: 'a' <= c <= 'z'
  }

  /** `_type_map[token]`, with a miss as `None`. The lookup is case-sensitive:
      only non-empty lower-case words resolve, never to `NullType`, and only
      `"array"` resolves to `HiveArray`. */
  function Lookup(token: string): (r: Option<TypeClass>)
    ensures r.Some? ==> IsLowerWord(token) && r.value != NullType
    ensures r.Some? ==> (r.value == HiveArray <==> token == "array")
    ensures r.Some? <==> token in TypeMap
  {
    if token in TypeMap then Some(TypeMap[token]) else None
  }

  /** What `HiveArray` holds as its item type: a type instance, or (when it was
      given by name) the class object `_type_map` stores. */
  datatype ItemType = InstanceItem(cls: TypeClass) | ClassItem(cls: TypeClass)

  /** The three forms the `item_type` argument can take. */
  datatype TypeArg = InstanceArg(cls: TypeClass) | ClassArg(cls: TypeClass) | NameArg(name: string)

  datatype ArrayType = ArrayType(itemType: ItemType, dimensions: Option<int>, zeroIndexes: bool)

  /** `HiveArray(item_type, dimensions, zero_indexes)`: an array instance as item
      type is refused; a class is instantiated (`HiveArray()` itself lacks its
      required argument); a name is looked up in the registry, and the class found
      there is kept as it is. */
  function NewHiveArray(itemType: TypeArg, dimensions: Option<int>, zeroIndexes: bool): (r: Result<ArrayType>)
    ensures r == Err(ValueError) <==> itemType == InstanceArg(HiveArray)
    ensures r.Ok? ==> r.value.dimensions == dimensions && r.value.zeroIndexes == zeroIndexes
    ensures r.Ok? ==> r.value.itemType != InstanceItem(HiveArray)
    ensures (itemType.InstanceArg? || itemType.ClassArg?) && itemType.cls != HiveArray
            ==> r == Ok(ArrayType(InstanceItem(itemType.cls), dimensions, zeroIndexes))
    ensures itemType == ClassArg(HiveArray) ==> r == Err(TypeError)
    ensures itemType.NameArg? ==>
              match Lookup(itemType.name)
              case Some(c) => r == Ok(ArrayType(ClassItem(c), dimensions, zeroIndexes))
              case None => r == Err(KeyError(itemType.name))
  {
    match itemType
    case InstanceArg(c) =>
      if c == HiveArray then Err(ValueError) else Ok(ArrayType(InstanceItem(c), dimensions, zeroIndexes))
    case ClassArg(c) =>
      if c == HiveArray then Err(TypeError) else Ok(ArrayType(InstanceItem(c), dimensions, zeroIndexes))
    case NameArg(n) =>
      if n in TypeMap then Ok(ArrayType(ClassItem(TypeMap[n]), dimensions, zeroIndexes)) else Err(KeyError(n))
  }

  /** The refusal of nested arrays covers array instances only: the name
      `"array"` slips through and yields an array whose item is the array class. */
  lemma NestedArrayByName(dimensions: Option<int>, zeroIndexes: bool)
    ensures NewHiveArray(InstanceArg(HiveArray), dimensions, zeroIndexes) == Err(ValueError)
    ensures NewHiveArray(NameArg("array"), dimensions, zeroIndexes).Ok?
    ensures NewHiveArray(NameArg("array"), dimensions, zeroIndexes).value.itemType == ClassItem(HiveArray)
  {
  }
}
