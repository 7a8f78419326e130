/**
 * The in-memory value model of a Vault database: the structural context a
 * value lives in (class, field, collection), the three kinds of VLT value
 * (arrays, primitives, composites), and the reflective view of a value, that
 * is, the list of public instance properties that .NET reflection reports
 * for it.
 */
module VaultValues {
  import opened Wrappers

  type GameId = string
  type TypeName = string

  /** A field of a VLT class. Its type name, alignment and size are format-relevant. */
  datatype Field = Field(name: string, typeName: TypeName, alignment: int, size: int)

  datatype VltClass = VltClass(name: string)

  datatype Collection = Collection(name: string)

  /** The (class, field, collection) triple that every value is constructed in. */
  datatype Context = Context(cls: VltClass, field: Field, collection: Collection)

  /** The database options the clone engine reads: only the game identifier. */
  datatype Database = Database(gameId: GameId)

  /** A host (.NET) type as reflection sees it: its name and whether it is primitive or an enum. */
  datatype HostType = HostType(name: string, isPrimitive: bool, isEnum: bool)

  /** A public instance property: its name, its declared type and whether its setter is public. */
  datatype PropertyInfo = PropertyInfo(name: string, propertyType: HostType, hasPublicSetter: bool)

  /** A VLT value. Scalars are modelled as integers; `None` is a null scalar. */
  datatype Value =
    | Array(capacity: int, itemAlignment: int, fieldSize: int, items: seq<Value>)
    | Primitive(scalar: Option<int>)
    | Composite(typeName: TypeName, props: seq<Property>)

  /** A property of a value together with what its getter returns. */
  datatype Property = Property(info: PropertyInfo, value: PropValue)

  /** What a property getter can return. */
  datatype PropValue =
    | Null
    | Vlt(v: Value)                // a nested VLT value
    | Str(s: string)
    | Boxed(x: int)                // a boxed primitive or enum value
    | HostArray(elems: seq<int>)   // a host-language array
    | HostList(items: seq<Value>)  // a host-language list of VLT values (an array's `Items`)
    | HostObject(handle: int)      // any other host object

  /** The runtime type reflection resolves a value to. */
  datatype RuntimeType = ArrayType | PrimitiveType | CompositeType(name: TypeName)

  function TypeOf(v: Value): RuntimeType {
    match v
    case Array(_, _, _, _) => ArrayType
    case Primitive(_) => PrimitiveType
    case Composite(name, _) => CompositeType(name)
  }

  // The public settable properties of an array: the clone engine itself assigns all four.
  const IntegerType := HostType("Int32", true, false)
  const CapacityInfo := PropertyInfo("Capacity", IntegerType, true)
  const ItemAlignmentInfo := PropertyInfo("ItemAlignment", IntegerType, true)
  const FieldSizeInfo := PropertyInfo("FieldSize", IntegerType, true)
  const ItemsInfo := PropertyInfo("Items", HostType("List`1", false, false), true)
  // A primitive exposes its scalar through one public property of primitive type.
  const ScalarInfo := PropertyInfo("Value", IntegerType, true)

  /**
   * The reflective view of a value: its public instance properties in
   * declaration order, with the values their getters return. Only a composite
   * has properties holding nested VLT values, and those are its own.
   */
  function Reflect(v: Value): (ps: seq<Property>)
    ensures v.Array? ==> |ps| == 4
    ensures v.Primitive? ==> |ps| == 1
    ensures v.Composite? ==> ps == v.props
    ensures forall i :: 0 <= i < |ps| && ps[i].value.Vlt? ==> v.Composite? && i < |v.props| && ps[i] == v.props[i]
  {
    match v
    case Array(capacity, itemAlignment, fieldSize, items) =>
      [Property(CapacityInfo, Boxed(capacity)), Property(ItemAlignmentInfo, Boxed(itemAlignment)),
       Property(FieldSizeInfo, Boxed(fieldSize)), Property(ItemsInfo, HostList(items))]
    case Primitive(scalar) =>
      [Property(ScalarInfo, if scalar.Some? then Boxed(scalar.value) else Null)]
    case Composite(_, props) => props
  }

  /** Two property lists declare the same properties in the same order. */
  predicate SameLayout(ps: seq<Property>, qs: seq<Property>) {
    |ps| == |qs| && forall i :: 0 <= i < |ps| ==> ps[i].info == qs[i].info
  }

  /**
   * A property of `orig` can be set on `target`: the target is of the same
   * runtime type and declares the same properties.
   */
  predicate Compatible(orig: Value, target: Value) {
    TypeOf(orig) == TypeOf(target) && SameLayout(Reflect(orig), Reflect(target))
  }

  /** Writing `pv` into property `i` of `t` stores it (an array field takes a number or a list, a scalar a number or null). */
  predicate Fits(t: Value, i: nat, pv: PropValue) {
    match t
    case Array(_, _, _, _) => (i < 3 && pv.Boxed?) || (i == 3 && pv.HostList?)
    case Primitive(_) => i == 0 && (pv.Boxed? || pv.Null?)
    case Composite(_, props) => i < |props|
  }

  /**
   * Sets property `i` of `t` to `pv`, as a property setter does: only that
   * property changes, and the runtime type and the declared properties stay.
   */
  function WithProp(t: Value, i: nat, pv: PropValue): (r: Value)
    ensures TypeOf(r) == TypeOf(t)
    ensures SameLayout(Reflect(r), Reflect(t))
    ensures Fits(t, i, pv) ==> Reflect(r) == Reflect(t)[i := Property(Reflect(t)[i].info, pv)]
  {
    match t
    case Array(capacity, itemAlignment, fieldSize, items) =>
      if i == 0 && pv.Boxed? then t.(capacity := pv.x)
      else if i == 1 && pv.Boxed? then t.(itemAlignment := pv.x)
      else if i == 2 && pv.Boxed? then t.(fieldSize := pv.x)
      else if i == 3 && pv.HostList? then t.(items := pv.items)
      else t
    case Primitive(_) =>
      if i == 0 && pv.Boxed? then Primitive(Some(pv.x))
      else if i == 0 && pv.Null? then Primitive(None)
      else t
    case Composite(name, props) =>
      if i < |props| then Composite(name, props[i := Property(props[i].info, pv)]) else t
  }
}
