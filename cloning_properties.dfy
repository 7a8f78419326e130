/**
 * What a clone is, stated property by property and proved about `Clone`
 * and `CloneObject`: the array branch and its metadata, the order of the
 * items and the first error, the primitive and composite branches, the
 * per-property copy policy of the reflective walk, and the asymmetry of
 * nested values, which never go through the array or primitive branch.
 */
module CloningProperties {
  import opened Wrappers
  import opened VaultValues
  import opened TypeRegistry
  import opened ValueCloningUtils

  // ---------------------------------------------------------------------------
  // Arrays
  // ---------------------------------------------------------------------------

  /** The first `k` items clone successfully exactly when each does, and item `i` of the result is the clone of item `i`. */
  lemma {:induction false} CloneItemsAll(reg: Registry, db: Database, arr: Value, k: nat, ctx: Context)
    requires arr.Array? && k <= |arr.items|
    ensures CloneItems(reg, db, arr, k, ctx).Success?
            <==> forall i :: 0 <= i < k ==> Clone(reg, db, arr.items[i], ctx).Success?
    ensures CloneItems(reg, db, arr, k, ctx).Success? ==>
              |CloneItems(reg, db, arr, k, ctx).value| == k &&
              forall i :: 0 <= i < k ==> Clone(reg, db, arr.items[i], ctx) == Success(CloneItems(reg, db, arr, k, ctx).value[i])
  {
    if k > 0 {
      CloneItemsAll(reg, db, arr, k - 1, ctx);
    }
  }

  /** When item `j` is the first whose clone fails, cloning any longer prefix fails with its error. */
  lemma CloneItemsFirstError(reg: Registry, db: Database, arr: Value, j: nat, k: nat, ctx: Context)
    requires arr.Array? && j < k <= |arr.items|
    requires forall i :: 0 <= i < j ==> Clone(reg, db, arr.items[i], ctx).Success?
    requires Clone(reg, db, arr.items[j], ctx).Failure?
    ensures CloneItems(reg, db, arr, k, ctx) == Failure(Clone(reg, db, arr.items[j], ctx).error)
  {
    CloneItemsAll(reg, db, arr, j, ctx);
    CloneItemsFailureSticks(reg, db, arr, j + 1, k, ctx);
  }

  /**
   * Cloning an array yields an array built on the `CreateInstance` shell:
   * the capacity is the original's whatever it is, the alignment and size
   * are the field's whatever the original carried, and the items are the
   * clones of the original items in the same order. It fails exactly when
   * the shell is not an array or some item fails to clone.
   */
  lemma CloneArray(reg: Registry, db: Database, v: Value, ctx: Context)
    requires v.Array?
    ensures var r := Clone(reg, db, v, ctx);
            var shell := reg.createInstance(db.gameId, ctx);
            && (!shell.Array? ==> r == Failure(InvalidCast))
            && (r.Success? <==> shell.Array? && forall i :: 0 <= i < |v.items| ==> Clone(reg, db, v.items[i], ctx).Success?)
            && (r.Success? ==>
                  && r.value.Array?
                  && r.value.capacity == v.capacity
                  && r.value.itemAlignment == ctx.field.alignment
                  && r.value.fieldSize == ctx.field.size
                  && |r.value.items| == |v.items|
                  && forall i :: 0 <= i < |v.items| ==> Clone(reg, db, v.items[i], ctx) == Success(r.value.items[i]))
  {
    CloneItemsAll(reg, db, v, |v.items|, ctx);
  }

  /** An array clone aborts with the error of the first item that fails to clone. */
  lemma CloneArrayFirstError(reg: Registry, db: Database, v: Value, j: nat, ctx: Context)
    requires v.Array? && reg.createInstance(db.gameId, ctx).Array?
    requires j < |v.items|
    requires forall i :: 0 <= i < j ==> Clone(reg, db, v.items[i], ctx).Success?
    requires Clone(reg, db, v.items[j], ctx).Failure?
    ensures Clone(reg, db, v, ctx) == Failure(Clone(reg, db, v.items[j], ctx).error)
  {
    CloneItemsFirstError(reg, db, v, j, |v.items|, ctx);
  }

  /** An array whose items fit its capacity clones to an array whose items fit its capacity. */
  lemma CloneArrayWithinCapacity(reg: Registry, db: Database, v: Value, ctx: Context)
    requires v.Array? && |v.items| <= v.capacity
    requires Clone(reg, db, v, ctx).Success?
    ensures var c := Clone(reg, db, v, ctx).value;
            c.Array? && |c.items| <= c.capacity
  {
    CloneArray(reg, db, v, ctx);
  }

  /** Plain field data: primitives, and arrays of plain data nested to any depth. */
  predicate PlainData(v: Value) {
    match v
    case Array(_, _, _, items) => forall i :: 0 <= i < |items| ==> PlainData(items[i])
    case Primitive(_) => true
    case Composite(_, _) => false
  }

  /**
   * What plain data `v` clones to: every array takes the field's alignment
   * and size, every non-null scalar is kept, and every null scalar comes back
   * as `nullShell`, the shell built for the field's type.
   */
  function PlainClone(v: Value, f: Field, nullShell: Value): (r: Value)
    ensures nullShell.Primitive? ==> TypeOf(r) == TypeOf(v)
  {
    match v
    case Array(capacity, _, _, items) =>
      Array(capacity, f.alignment, f.size, seq(|items|, i requires 0 <= i < |items| => PlainClone(items[i], f, nullShell)))
    case Primitive(scalar) => if scalar.None? then nullShell else v
    case _ => v
  }

  /**
   * Round trip: with a registry that hands out an array shell for the field
   * and a primitive shell for its type, plain data clones to itself, except
   * that every array takes the field's alignment and size and every null
   * scalar comes back as the primitive shell.
   */
  lemma {:induction false} CloneRoundTrip(reg: Registry, db: Database, v: Value, ctx: Context)
    requires PlainData(v)
    requires reg.createInstance(db.gameId, ctx).Array?
    requires (db.gameId, ctx.field.typeName) in reg.types
    requires reg.constructInstance(reg.types[(db.gameId, ctx.field.typeName)], ctx).Primitive?
    ensures Clone(reg, db, v, ctx)
            == Success(PlainClone(v, ctx.field, reg.constructInstance(reg.types[(db.gameId, ctx.field.typeName)], ctx)))
    decreases v
  {
    var shell := reg.constructInstance(reg.types[(db.gameId, ctx.field.typeName)], ctx);
    match v
    case Array(capacity, _, _, items) =>
      forall i | 0 <= i < |items|
        ensures Clone(reg, db, items[i], ctx) == Success(PlainClone(items[i], ctx.field, shell))
      {
        CloneRoundTrip(reg, db, items[i], ctx);
      }
      CloneArray(reg, db, v, ctx);
      assert Clone(reg, db, v, ctx).value.items == PlainClone(v, ctx.field, shell).items;
    case Primitive(_) =>
      ClonePrimitive(reg, db, v, ctx);
  }

  /**
   * Plain data that its clone leaves as it is (its arrays already carry the
   * field's metadata, and it has no null scalar or the shell is null too)
   * clones to an equal value.
   */
  lemma CloneIsIdentity(reg: Registry, db: Database, v: Value, ctx: Context)
    requires PlainData(v)
    requires reg.createInstance(db.gameId, ctx).Array?
    requires (db.gameId, ctx.field.typeName) in reg.types
    requires reg.constructInstance(reg.types[(db.gameId, ctx.field.typeName)], ctx).Primitive?
    requires PlainClone(v, ctx.field, reg.constructInstance(reg.types[(db.gameId, ctx.field.typeName)], ctx)) == v
    ensures Clone(reg, db, v, ctx) == Success(v)
  {
    CloneRoundTrip(reg, db, v, ctx);
  }

  // ---------------------------------------------------------------------------
  // Primitives and composites at the top level
  // ---------------------------------------------------------------------------

  /** Any value other than an array needs the field's type name to resolve. */
  lemma CloneUnknownType(reg: Registry, db: Database, v: Value, ctx: Context)
    requires !v.Array? && (db.gameId, ctx.field.typeName) !in reg.types
    ensures Clone(reg, db, v, ctx) == Failure(UnknownType(db.gameId, ctx.field.typeName))
  {
  }

  /**
   * A primitive's clone is the shell of the field's type; a non-null scalar
   * is copied into it (so the shell must be a primitive), a null scalar
   * leaves the shell as constructed.
   */
  lemma ClonePrimitive(reg: Registry, db: Database, v: Value, ctx: Context)
    requires v.Primitive? && (db.gameId, ctx.field.typeName) in reg.types
    ensures var shell := reg.constructInstance(reg.types[(db.gameId, ctx.field.typeName)], ctx);
            var r := Clone(reg, db, v, ctx);
            && (v.scalar.None? ==> r == Success(shell))
            && (v.scalar.Some? && shell.Primitive? ==> r == Success(Primitive(v.scalar)))
            && (v.scalar.Some? && !shell.Primitive? ==> r == Failure(InvalidCast))
  {
  }

  /** A composite's clone is its properties copied into a shell of the field's resolved type. */
  lemma CloneComposite(reg: Registry, db: Database, v: Value, ctx: Context)
    requires v.Composite? && (db.gameId, ctx.field.typeName) in reg.types
    ensures Clone(reg, db, v, ctx)
            == CloneObject(reg, v, reg.constructInstance(reg.types[(db.gameId, ctx.field.typeName)], ctx), ctx)
  {
  }

  // ---------------------------------------------------------------------------
  // The reflective walk
  // ---------------------------------------------------------------------------

  /** The walk calls the setter of property `p`: it is visited and its value has a copy policy. */
  predicate Writes(p: Property) {
    && p.info.hasPublicSetter
    && (|| p.value.Null? || p.value.Vlt? || p.value.Str? || p.value.HostArray?
        || p.info.propertyType.isPrimitive || p.info.propertyType.isEnum)
  }

  /** A nested VLT value held by `p` clones successfully (trivially true of other values). */
  predicate NestedOk(reg: Registry, p: Property, ctx: Context) {
    p.value.Vlt? ==> CloneObject(reg, p.value.v, reg.constructInstance(p.info.propertyType, ctx), ctx).Success?
  }

  /**
   * The copy policy, property by property: `q` is the clone's property for
   * the original's `p` and the shell's `s`. A property without a public
   * setter keeps the shell's value; null stays null; a nested VLT value is
   * rebuilt by `CloneObject` from a shell of the declared type; strings and
   * host arrays are copied; a value of a primitive or enum declared type is
   * copied; anything else keeps the shell's value.
   */
  predicate CopiedProperty(reg: Registry, p: Property, s: Property, q: Property, ctx: Context) {
    && q.info == s.info
    && if !p.info.hasPublicSetter then q == s
       else match p.value
         case Null => q.value == Null
         case Vlt(w) => q.value.Vlt? && CloneObject(reg, w, reg.constructInstance(p.info.propertyType, ctx), ctx) == Success(q.value.v)
         case Str(str) => q.value == Str(str)
         case HostArray(elems) => q.value == HostArray(elems)
         case _ => if p.info.propertyType.isPrimitive || p.info.propertyType.isEnum then q.value == p.value else q == s
  }

  /** A target of the shell's type and layout accepts a setter exactly when the shell does. */
  lemma CompatibleSameShape(orig: Value, shell: Value, t: Value)
    requires TypeOf(t) == TypeOf(shell) && SameLayout(Reflect(t), Reflect(shell))
    ensures Compatible(orig, t) <==> Compatible(orig, shell)
  {
  }

  /** The value the walk writes for a written property `p` whose nested clone, if any, succeeds. */
  function CopyOf(reg: Registry, p: Property, ctx: Context): (pv: PropValue)
    requires NestedOk(reg, p, ctx)
    ensures !p.value.Vlt? ==> pv == p.value
    ensures p.value.Vlt? ==> pv.Vlt? && CloneObject(reg, p.value.v, reg.constructInstance(p.info.propertyType, ctx), ctx) == Success(pv.v)
  {
    if p.value.Vlt? then Vlt(CloneObject(reg, p.value.v, reg.constructInstance(p.info.propertyType, ctx), ctx).value)
    else p.value
  }

  /** What the walk writes into a compatible target is stored as written. */
  lemma WrittenFits(reg: Registry, orig: Value, t: Value, i: nat, ctx: Context)
    requires Compatible(orig, t) && i < |Reflect(orig)| && Writes(Reflect(orig)[i]) && NestedOk(reg, Reflect(orig)[i], ctx)
    ensures Fits(t, i, CopyOf(reg, Reflect(orig)[i], ctx))
  {
  }

  /** One step of the walk, on property `i`: skipped, failed, or written with `CopyOf`. */
  lemma PropStepCases(reg: Registry, orig: Value, i: nat, t: Value, ctx: Context)
    requires i < |Reflect(orig)|
    ensures var p := Reflect(orig)[i];
            var r := PropStep(reg, orig, i, t, ctx);
            && (!Writes(p) ==> r == Success(t))
            && (Writes(p) && !(NestedOk(reg, p, ctx) && Compatible(orig, t)) ==> r.Failure?)
            && (Writes(p) && NestedOk(reg, p, ctx) && Compatible(orig, t) ==> r == Success(WithProp(t, i, CopyOf(reg, p, ctx))))
  {
  }

  /** The walk fails exactly when a written property meets an incompatible shell or a failing nested clone. */
  lemma {:induction false} ClonePropsSucceeds(reg: Registry, orig: Value, shell: Value, k: nat, ctx: Context)
    requires k <= |Reflect(orig)|
    ensures CloneProps(reg, orig, shell, k, ctx).Success?
            <==> forall i :: 0 <= i < k && Writes(Reflect(orig)[i]) ==> Compatible(orig, shell) && NestedOk(reg, Reflect(orig)[i], ctx)
    ensures CloneProps(reg, orig, shell, k, ctx).Success? ==>
              var t := CloneProps(reg, orig, shell, k, ctx).value;
              TypeOf(t) == TypeOf(shell) && SameLayout(Reflect(t), Reflect(shell))
    ensures CloneProps(reg, orig, shell, k, ctx).Success? && (forall i :: 0 <= i < k ==> !Writes(Reflect(orig)[i]))
            ==> CloneProps(reg, orig, shell, k, ctx) == Success(shell)
  {
    if k > 0 {
      ClonePropsSucceeds(reg, orig, shell, k - 1, ctx);
      var prev := CloneProps(reg, orig, shell, k - 1, ctx);
      if prev.Success? {
        CompatibleSameShape(orig, shell, prev.value);
        PropStepCases(reg, orig, k - 1, prev.value, ctx);
      }
    }
  }

  /**
   * After `k` properties of a walk into a compatible shell, the first `k`
   * properties of the target follow the copy policy and the rest are the shell's.
   */
  lemma {:induction false} ClonePropsCopies(reg: Registry, orig: Value, shell: Value, k: nat, ctx: Context)
    requires k <= |Reflect(orig)| && Compatible(orig, shell)
    requires CloneProps(reg, orig, shell, k, ctx).Success?
    ensures var pt := Reflect(CloneProps(reg, orig, shell, k, ctx).value);
            && |pt| == |Reflect(orig)|
            && forall i :: 0 <= i < |Reflect(orig)| ==>
                 if i < k then CopiedProperty(reg, Reflect(orig)[i], Reflect(shell)[i], pt[i], ctx)
                 else pt[i] == Reflect(shell)[i]
  {
    ClonePropsSucceeds(reg, orig, shell, k, ctx);
    if k > 0 {
      var j := k - 1;
      ClonePropsCopies(reg, orig, shell, j, ctx);
      ClonePropsSucceeds(reg, orig, shell, j, ctx);
      var t := CloneProps(reg, orig, shell, j, ctx).value;
      var p := Reflect(orig)[j];
      var ps := Reflect(shell);
      CompatibleSameShape(orig, shell, t);
      PropStepCases(reg, orig, j, t, ctx);
      if Writes(p) {
        WrittenFits(reg, orig, t, j, ctx);
        var pr := Reflect(CloneProps(reg, orig, shell, k, ctx).value);
        assert pr == Reflect(t)[j := Property(Reflect(t)[j].info, CopyOf(reg, p, ctx))];
        assert CopiedProperty(reg, p, ps[j], pr[j], ctx);
      }
    }
  }

  /**
   * Copying into a shell of the original's type and layout fails exactly
   * when the clone of a nested VLT value held by a visited property fails.
   */
  lemma CloneObjectSucceeds(reg: Registry, orig: Value, shell: Value, ctx: Context)
    requires Compatible(orig, shell)
    ensures CloneObject(reg, orig, shell, ctx).Success?
            <==> forall i :: 0 <= i < |Reflect(orig)| && Reflect(orig)[i].info.hasPublicSetter ==> NestedOk(reg, Reflect(orig)[i], ctx)
  {
    ClonePropsSucceeds(reg, orig, shell, |Reflect(orig)|, ctx);
  }

  /**
   * A successful copy into a compatible shell: the result has the shell's
   * type and declared properties, and every property of the original is
   * handled by the copy policy (`CopiedProperty`).
   */
  lemma CloneObjectCopies(reg: Registry, orig: Value, shell: Value, ctx: Context)
    requires Compatible(orig, shell) && CloneObject(reg, orig, shell, ctx).Success?
    ensures var c := CloneObject(reg, orig, shell, ctx).value;
            && TypeOf(c) == TypeOf(shell)
            && SameLayout(Reflect(c), Reflect(shell))
            && forall i :: 0 <= i < |Reflect(orig)| ==> CopiedProperty(reg, Reflect(orig)[i], Reflect(shell)[i], Reflect(c)[i], ctx)
  {
    ClonePropsSucceeds(reg, orig, shell, |Reflect(orig)|, ctx);
    ClonePropsCopies(reg, orig, shell, |Reflect(orig)|, ctx);
  }

  /**
   * Copying into a shell of another type or layout: the shell comes back
   * unchanged when no property is written, and the copy fails as soon as one is.
   */
  lemma CloneObjectIncompatible(reg: Registry, orig: Value, shell: Value, ctx: Context)
    requires !Compatible(orig, shell)
    ensures (forall i :: 0 <= i < |Reflect(orig)| ==> !Writes(Reflect(orig)[i]))
            ==> CloneObject(reg, orig, shell, ctx) == Success(shell)
    ensures (exists i :: 0 <= i < |Reflect(orig)| && Writes(Reflect(orig)[i]))
            ==> CloneObject(reg, orig, shell, ctx).Failure?
  {
    ClonePropsSucceeds(reg, orig, shell, |Reflect(orig)|, ctx);
  }

  // ---------------------------------------------------------------------------
  // Nested values: no array or primitive special case
  // ---------------------------------------------------------------------------

  /**
   * An array reached as a nested property is walked like any object: its
   * capacity, alignment and size are copied from the original (not from the
   * field), and its items are not cloned at all: the shell's items stay.
   */
  lemma NestedArrayClone(reg: Registry, orig: Value, shell: Value, ctx: Context)
    requires orig.Array?
    ensures shell.Array? ==>
              CloneObject(reg, orig, shell, ctx) == Success(Array(orig.capacity, orig.itemAlignment, orig.fieldSize, shell.items))
    ensures !shell.Array? ==> CloneObject(reg, orig, shell, ctx) == Failure(TargetMismatch)
  {
    if shell.Array? {
      var s1 := shell.(capacity := orig.capacity);
      var s2 := s1.(itemAlignment := orig.itemAlignment);
      var s3 := s2.(fieldSize := orig.fieldSize);
      assert CloneProps(reg, orig, shell, 1, ctx) == Success(s1);
      assert CloneProps(reg, orig, shell, 2, ctx) == Success(s2);
      assert CloneProps(reg, orig, shell, 3, ctx) == Success(s3);
      assert CloneProps(reg, orig, shell, 4, ctx) == Success(s3);
    } else {
      assert CloneProps(reg, orig, shell, 1, ctx) == Failure(TargetMismatch);
      ClonePropsFailureSticks(reg, orig, shell, 1, 4, ctx);
    }
  }

  /**
   * A primitive reached as a nested property has its scalar written through
   * its property setter, so a null scalar is written as null too (unlike the
   * top-level primitive branch, which leaves the shell as constructed).
   */
  lemma NestedPrimitiveClone(reg: Registry, orig: Value, shell: Value, ctx: Context)
    requires orig.Primitive?
    ensures shell.Primitive? ==> CloneObject(reg, orig, shell, ctx) == Success(Primitive(orig.scalar))
    ensures !shell.Primitive? ==> CloneObject(reg, orig, shell, ctx) == Failure(TargetMismatch)
  {
  }

  // ---------------------------------------------------------------------------
  // A worked scenario
  // ---------------------------------------------------------------------------

  /**
   * A `Vehicle` record's `Wheels` field: an array of capacity 4 holding the
   * integers 1 to 4, whose instance carries a stale alignment and size.
   * With a registry that hands out empty shells, the clone has capacity 4,
   * the field's alignment and size, and the same four integers in order.
   */
  lemma VehicleWheels()
    ensures var wheels := Field("Wheels", "UInt32", 4, 16);
            var ctx := Context(VltClass("Vehicle"), wheels, Collection("car_01"));
            var reg := Registry(map[("Game", "UInt32") := IntegerType],
                                (g: GameId, c: Context) => Array(0, 0, 0, []),
                                (t: HostType, c: Context) => Primitive(None));
            var items := [Primitive(Some(1)), Primitive(Some(2)), Primitive(Some(3)), Primitive(Some(4))];
            Clone(reg, Database("Game"), Array(4, 1, 99, items), ctx) == Success(Array(4, 4, 16, items))
  {
    var wheels := Field("Wheels", "UInt32", 4, 16);
    var ctx := Context(VltClass("Vehicle"), wheels, Collection("car_01"));
    var reg := Registry(map[("Game", "UInt32") := IntegerType],
                        (g: GameId, c: Context) => Array(0, 0, 0, []),
                        (t: HostType, c: Context) => Primitive(None));
    var items := [Primitive(Some(1)), Primitive(Some(2)), Primitive(Some(3)), Primitive(Some(4))];
    var v := Array(4, 1, 99, items);
    forall i | 0 <= i < 4
      ensures Clone(reg, Database("Game"), items[i], ctx) == Success(items[i])
    {
      ClonePrimitive(reg, Database("Game"), items[i], ctx);
    }
    CloneArray(reg, Database("Game"), v, ctx);
    var r := Clone(reg, Database("Game"), v, ctx).value;
    assert r.items == items;
  }
}
