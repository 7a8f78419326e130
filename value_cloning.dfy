/**
 * The clone engine. `Clone` and `CloneObject` define, as recursive
 * functions, what a clone is; the methods `CloneValue` and
 * `CloneObjectWithReflection` compute it the way the engine does, building a
 * fresh shell and writing into it step by step.
 */
module ValueCloningUtils {
  import opened Wrappers
  import opened VaultValues
  import opened TypeRegistry

  /**
   * The clone of `v` in context `ctx`. An array gets a fresh array shell:
   * its capacity comes from `v`, its alignment and size from the field, and
   * its items are the clones of `v`'s items, in order. Any other value gets
   * a shell of the field's resolved type; a primitive copies a non-null
   * scalar into it, a composite has its properties copied by `CloneObject`.
   */
  function Clone(reg: Registry, db: Database, v: Value, ctx: Context): Result<Value, VaultError>
    decreases v, 1
  {
    if v.Array? then
      var shell := reg.createInstance(db.gameId, ctx);
      if !shell.Array? then Failure(InvalidCast)
      else
        var items :- CloneItems(reg, db, v, |v.items|, ctx);
        Success(shell.(capacity := v.capacity, itemAlignment := ctx.field.alignment,
                       fieldSize := ctx.field.size, items := items))
    else
      var t :- ResolveType(reg, db.gameId, ctx.field.typeName);
      var shell := reg.constructInstance(t, ctx);
      if v.Primitive? then
        if v.scalar.None? then Success(shell)
        else if shell.Primitive? then Success(shell.(scalar := v.scalar))
        else Failure(InvalidCast)
      else CloneObject(reg, v, shell, ctx)
  }

  /** The clones of the first `k` items of array `arr`, cloned left to right; the first failure wins. */
  function CloneItems(reg: Registry, db: Database, arr: Value, k: nat, ctx: Context): Result<seq<Value>, VaultError>
    requires arr.Array? && k <= |arr.items|
    decreases arr, 0, k
  {
    if k == 0 then Success([])
    else
      var init :- CloneItems(reg, db, arr, k - 1, ctx);
      var last :- Clone(reg, db, arr.items[k - 1], ctx);
      Success(init + [last])
  }

  /** Copies every public settable property of `orig` into `shell`, in declaration order. */
  function CloneObject(reg: Registry, orig: Value, shell: Value, ctx: Context): Result<Value, VaultError>
    decreases orig, 1
  {
    CloneProps(reg, orig, shell, |Reflect(orig)|, ctx)
  }

  /** `shell` after the first `k` properties of `orig` have been visited. */
  function CloneProps(reg: Registry, orig: Value, shell: Value, k: nat, ctx: Context): Result<Value, VaultError>
    requires k <= |Reflect(orig)|
    decreases orig, 0, k
  {
    if k == 0 then Success(shell)
    else
      var t :- CloneProps(reg, orig, shell, k - 1, ctx);
      PropStep(reg, orig, k - 1, t, ctx)
  }

  /**
   * The copy policy for property `i` of `orig`, applied to `target`. A
   * property without a public setter is not visited. Null is written as
   * null; a nested VLT value is rebuilt by `CloneObject` from a shell of the
   * property's declared type; a string is copied; a value of a primitive or
   * enum declared type is copied; a host array is copied element-wise;
   * anything else is not written.
   */
  function PropStep(reg: Registry, orig: Value, i: nat, target: Value, ctx: Context): Result<Value, VaultError>
    requires i < |Reflect(orig)|
    decreases orig, 0, i
  {
    var p := Reflect(orig)[i];
    if !p.info.hasPublicSetter then Success(target)
    else
      match p.value
      case Null => SetValue(orig, target, i, Null)
      case Vlt(w) =>
        var c :- CloneObject(reg, w, reg.constructInstance(p.info.propertyType, ctx), ctx);
        SetValue(orig, target, i, Vlt(c))
      case Str(s) => SetValue(orig, target, i, Str(s))
      case HostArray(elems) =>
        if p.info.propertyType.isPrimitive || p.info.propertyType.isEnum then SetValue(orig, target, i, p.value)
        else SetValue(orig, target, i, HostArray(elems))
      case _ =>
        if p.info.propertyType.isPrimitive || p.info.propertyType.isEnum then SetValue(orig, target, i, p.value)
        else Success(target)
  }

  /**
   * Invokes the setter of `orig`'s property `i` on `target`. A target of
   * another type is an error; otherwise the target keeps its type and
   * declared properties, and a value that fits is what property `i` now holds.
   */
  function SetValue(orig: Value, target: Value, i: nat, pv: PropValue): (r: Result<Value, VaultError>)
    ensures r.Failure? <==> !Compatible(orig, target)
    ensures r.Failure? ==> r.error == TargetMismatch
    ensures r.Success? ==> TypeOf(r.value) == TypeOf(target) && SameLayout(Reflect(r.value), Reflect(target))
    ensures r.Success? && Fits(target, i, pv) ==>
              Reflect(r.value) == Reflect(target)[i := Property(Reflect(target)[i].info, pv)]
  {
    if Compatible(orig, target) then Success(WithProp(target, i, pv)) else Failure(TargetMismatch)
  }

  /** Once cloning the items fails, cloning more of them fails with the same error. */
  lemma {:induction false} CloneItemsFailureSticks(reg: Registry, db: Database, arr: Value, k: nat, m: nat, ctx: Context)
    requires arr.Array? && k <= m <= |arr.items|
    requires CloneItems(reg, db, arr, k, ctx).Failure?
    ensures CloneItems(reg, db, arr, m, ctx) == CloneItems(reg, db, arr, k, ctx)
  {
    if m > k {
      CloneItemsFailureSticks(reg, db, arr, k, m - 1, ctx);
    }
  }

  /** Once a property step fails, visiting more properties fails with the same error. */
  lemma {:induction false} ClonePropsFailureSticks(reg: Registry, orig: Value, shell: Value, k: nat, m: nat, ctx: Context)
    requires k <= m <= |Reflect(orig)|
    requires CloneProps(reg, orig, shell, k, ctx).Failure?
    ensures CloneProps(reg, orig, shell, m, ctx) == CloneProps(reg, orig, shell, k, ctx)
  {
    if m > k {
      ClonePropsFailureSticks(reg, orig, shell, k, m - 1, ctx);
    }
  }

  /** Clones `originalValue`, held by field `ctx.field` of class `ctx.cls` in collection `ctx.collection`. */
  method CloneValue(reg: Registry, db: Database, originalValue: Value, ctx: Context)
    returns (r: Result<Value, VaultError>)
    ensures r == Clone(reg, db, originalValue, ctx)
    decreases originalValue, 1
  {
    var newValue: Value;
    if originalValue.Array? {
      newValue := reg.createInstance(db.gameId, ctx);
    } else {
      var t := ResolveType(reg, db.gameId, ctx.field.typeName);
      if t.Failure? {
        return Failure(t.error);
      }
      newValue := reg.constructInstance(t.value, ctx);
    }

    if originalValue.Array? {
      if !newValue.Array? {
        return Failure(InvalidCast);
      }
      var newArray := newValue.(capacity := originalValue.capacity);
      newArray := newArray.(itemAlignment := ctx.field.alignment);
      newArray := newArray.(fieldSize := ctx.field.size);
      var items: seq<Value> := [];
      var i := 0;
      while i < |originalValue.items|
        invariant i <= |originalValue.items|
        invariant CloneItems(reg, db, originalValue, i, ctx) == Success(items)
      {
        var item := CloneValue(reg, db, originalValue.items[i], ctx);
        if item.Failure? {
          CloneItemsFailureSticks(reg, db, originalValue, i + 1, |originalValue.items|, ctx);
          return Failure(item.error);
        }
        items := items + [item.value];
        i := i + 1;
      }
      newArray := newArray.(items := items);
      return Success(newArray);
    }

    if originalValue.Primitive? {
      var convertible := originalValue.scalar;
      if convertible.Some? {
        if !newValue.Primitive? {
          return Failure(InvalidCast);
        }
        newValue := newValue.(scalar := convertible);
      }
      return Success(newValue);
    }
    r := CloneObjectWithReflection(reg, originalValue, newValue, ctx);
  }

  /** Writes every public settable property of `originalValue` into `newValue`, one property at a time. */
  method CloneObjectWithReflection(reg: Registry, originalValue: Value, newValue: Value, ctx: Context)
    returns (r: Result<Value, VaultError>)
    ensures r == CloneObject(reg, originalValue, newValue, ctx)
    decreases originalValue, 1
  {
    var properties := Reflect(originalValue);
    var target := newValue;
    var i := 0;
    while i < |properties|
      invariant i <= |properties|
      invariant CloneProps(reg, originalValue, newValue, i, ctx) == Success(target)
    {
      var p := properties[i];
      if p.info.hasPublicSetter {
        var write: Option<PropValue> := None;
        match p.value {
          case Null =>
            write := Some(Null);
          case Vlt(w) =>
            var c := CloneObjectWithReflection(reg, w, reg.constructInstance(p.info.propertyType, ctx), ctx);
            if c.Failure? {
              ClonePropsFailureSticks(reg, originalValue, newValue, i + 1, |properties|, ctx);
              return Failure(c.error);
            }
            write := Some(Vlt(c.value));
          case Str(s) =>
            write := Some(Str(s));
          case HostArray(elems) =>
            if p.info.propertyType.isPrimitive || p.info.propertyType.isEnum {
              write := Some(p.value);
            } else {
              write := Some(HostArray(elems));
            }
          case _ =>
            if p.info.propertyType.isPrimitive || p.info.propertyType.isEnum {
              write := Some(p.value);
            }
        }
        if write.Some? {
          if !Compatible(originalValue, target) {
            ClonePropsFailureSticks(reg, originalValue, newValue, i + 1, |properties|, ctx);
            return Failure(TargetMismatch);
          }
          target := WithProp(target, i, write.value);
        }
      }
      i := i + 1;
    }
    return Success(target);
  }
}
