# Deep cloning of typed Vault values

This project models the clone engine of the Attribulator/YAMLDatabase tools in Dafny and proves properties about it. The engine makes a deep copy of a typed VLT value taken from a Vault database. It has two routines, `CloneValue` and `CloneObjectWithReflection`, in `Attribulator.ModScript.API/Utils/ValueCloningUtils.cs`.

`CloneValue` picks one of three paths by the kind of the original value:

- An **array** gets a fresh array shell from the type registry's `CreateInstance`. The shell takes its capacity from the original and its item alignment and field size from the field definition. Every item is cloned with `CloneValue`, in order.
- A **primitive** gets a shell of the field's resolved type. Its scalar is copied only when it is not null.
- Any **other value** gets a shell of the field's resolved type and is handed to `CloneObjectWithReflection`. That routine walks the original's public instance properties that have a public setter and writes each one into the shell:
  - null is written as null;
  - a nested VLT value is rebuilt from a shell of the property's declared type by calling `CloneObjectWithReflection` again;
  - a string is copied;
  - a value whose declared type is primitive or an enum is copied;
  - a host array is copied;
  - anything else is left as the shell had it.

## How the model is built

- `wrappers.dfy` (module `Wrappers`) holds `Option` and `Result`.
- `vault_values.dfy` (module `VaultValues`) is the data model:
  - the context of a value: `Field` (type name, alignment, size), `VltClass`, `Collection`, `Context` and `Database` (the game identifier);
  - the `Value` datatype with the three kinds: `Array`, `Primitive` and `Composite`;
  - what a property getter can return (`PropValue`);
  - the reflective view `Reflect`, which lists a value's public properties with their values;
  - `WithProp`, the effect of one property setter.
- `type_registry.dfy` (module `TypeRegistry`) holds `Registry` and `ResolveType`. A `Registry` is a table of resolvable type names plus two arbitrary construction functions that stand for `CreateInstance` and `ConstructInstance`. `ResolveType` returns an `UnknownType` error for a name that is not registered. Every property below holds whatever shells the construction functions return.
- `value_cloning.dfy` (module `ValueCloningUtils`) has two parts:
  - Two recursive functions state what a clone is. `Clone` covers the three branches of `CloneValue`. `CloneObject` covers the reflective walk: `CloneProps` folds `PropStep` over the properties, and `PropStep` applies the copy policy to one property.
  - Two methods do the work step by step, as the C# code does. `CloneValue` builds a shell, sets its fields and clones the items in a loop. `CloneObjectWithReflection` writes one property per loop iteration. Each method is proved to return exactly what its function defines.
- `cloning_properties.dfy` (module `CloningProperties`) proves properties of those functions. It covers the array branch, the primitive and composite branches, the per-property copy policy, the asymmetry of nested values, and a worked `Vehicle` example.

Errors are modelled as `Result` values, because any failure aborts the whole clone:

- `UnknownType`: `ResolveType` found no type for the name.
- `InvalidCast`: one of the casts at lines 38 and 52 failed because the shell was of the wrong kind.
- `TargetMismatch`: a property setter was called on a shell whose runtime type or declared properties differ from the original's (`Compatible`). This stands for the `TargetException` that .NET reflection throws on the first such call; `Compatible` approximates .NET's declaring-type test, as "## Left out" says.

Reflection over the two VaultLib kinds works as follows:

- An array exposes `Capacity`, `ItemAlignment` and `FieldSize` as integer properties with public setters. The clone engine assigns all three itself at lines 39-41. It also exposes `Items`, a host list, which is neither a primitive nor a host array, so the walk never writes it.
- A primitive exposes its scalar as one public property of primitive type.

Three facts about the code are worth stating plainly. The model follows the code in each:

- The clone is not alias-free. A host array is copied shallowly (`array.Clone()`, line 91). A property of any other host object kind, such as a list, is not copied at all and keeps the shell's value (lines 88-92). A nested array keeps the shell's items (`NestedArrayClone`).
- There is no single clone error. The code fails with whichever .NET exception occurs first: an unknown type name at line 33, a failed cast at line 38 or 52, or a setter on the wrong target at lines 75-91. The model names these `UnknownType`, `InvalidCast` and `TargetMismatch`.
- Capacity is never checked against the item count. The model proves only that a clone keeps the relation when the original has it (`CloneArrayWithinCapacity`).

## Model

| member | source | states |
|---|---|---|
| `ValueCloningUtils.CloneValue` | Attribulator.ModScript.API/Utils/ValueCloningUtils.cs:26-57 | The step-by-step clone (the shell is built, cast, its fields set and its items cloned in a loop) returns exactly `Clone`: the same value or the same error. |
| `ValueCloningUtils.CloneObjectWithReflection` | Attribulator.ModScript.API/Utils/ValueCloningUtils.cs:59-97 | The `foreach` loop that writes one property per iteration into the shell returns exactly `CloneObject`, including the first error it meets. |
| `ValueCloningUtils.SetValue` | Attribulator.ModScript.API/Utils/ValueCloningUtils.cs:75-91 | A property setter fails, with `TargetMismatch`, exactly when the target does not have the original's runtime type and declared properties. On success the target keeps its type and declared properties, and, seen through `Reflect`, only property i changes: it holds the value written when that value fits the property. |
| `ValueCloningUtils.CloneItemsFailureSticks` | Attribulator.ModScript.API/Utils/ValueCloningUtils.cs:42-43 | Once cloning an item fails, no further item changes the outcome: the array clone ends with that failure (all or nothing). |
| `ValueCloningUtils.ClonePropsFailureSticks` | Attribulator.ModScript.API/Utils/ValueCloningUtils.cs:68-94 | Once one property fails, no later property changes the outcome of the walk. |
| `VaultValues.WithProp` | Attribulator.ModScript.API/Utils/ValueCloningUtils.cs:75-91 | A setter changes only the property it sets. The runtime type and the declared properties stay, and a fitting value is stored as given. |
| `CloningProperties.CloneArray` | Attribulator.ModScript.API/Utils/ValueCloningUtils.cs:30-46 | Cloning an array yields an array, or `InvalidCast` when the `CreateInstance` shell is not an array. The clone succeeds exactly when the shell is an array and every item clones. On success: capacity is the original's; alignment and size are the field's, whatever the original carried; same number of items, and item i is the clone of original item i. |
| `CloningProperties.CloneItemsAll` | Attribulator.ModScript.API/Utils/ValueCloningUtils.cs:42-43 | Cloning the first k items succeeds exactly when each item clones. The result has k items, each the clone of the original item at the same index. |
| `CloningProperties.CloneItemsFirstError` | Attribulator.ModScript.API/Utils/ValueCloningUtils.cs:42-43 | When item j is the first whose clone fails, cloning any longer prefix fails with item j's error. |
| `CloningProperties.CloneArrayFirstError` | Attribulator.ModScript.API/Utils/ValueCloningUtils.cs:36-46 | An array clone aborts with the error of the first item that fails to clone. |
| `CloningProperties.CloneArrayWithinCapacity` | Attribulator.ModScript.API/Utils/ValueCloningUtils.cs:39-43 | If an array's item count is within its capacity, so is its clone's: the capacity and the item count are both carried over. |
| `CloningProperties.CloneRoundTrip` | Attribulator.ModScript.API/Utils/ValueCloningUtils.cs:26-53 | Round trip for plain data (primitives, and arrays of them to any depth), for any array shell and any primitive shell. The clone equals the original, except that every array has the field's alignment and size and every null scalar comes back as the primitive shell as constructed. |
| `CloningProperties.CloneIsIdentity` | Attribulator.ModScript.API/Utils/ValueCloningUtils.cs:26-53 | Plain data that the round trip leaves unchanged clones to an equal value: its arrays already carry the field's metadata, and it has no null scalar, or the primitive shell is null too. |
| `CloningProperties.CloneUnknownType` | Attribulator.ModScript.API/Utils/ValueCloningUtils.cs:30-34 | Any value other than an array fails with `UnknownType(game, field type)` when the field's type name is not registered for the game. |
| `CloningProperties.ClonePrimitive` | Attribulator.ModScript.API/Utils/ValueCloningUtils.cs:48-53 | A null scalar returns the shell of the field's type unchanged. A non-null scalar is copied into the shell when the shell is a primitive, and gives `InvalidCast` otherwise. |
| `CloningProperties.CloneComposite` | Attribulator.ModScript.API/Utils/ValueCloningUtils.cs:54-55 | A composite's clone is the reflective walk over its properties into a shell of the field's resolved type. |
| `CloningProperties.PropStepCases` | Attribulator.ModScript.API/Utils/ValueCloningUtils.cs:70-92 | One step of the walk either leaves the target as it is (nothing to write), or fails (incompatible target or failing nested clone), or writes the policy's value into exactly that property. |
| `CloningProperties.ClonePropsSucceeds` | Attribulator.ModScript.API/Utils/ValueCloningUtils.cs:68-94 | After k properties, the walk has failed exactly when a written property met an incompatible shell or a failing nested clone. On success the target keeps the shell's type and layout, and if nothing was written it is the shell itself. |
| `CloningProperties.ClonePropsCopies` | Attribulator.ModScript.API/Utils/ValueCloningUtils.cs:68-94 | After k properties into a compatible shell, the first k properties follow the copy policy and the rest still hold the shell's values. |
| `CloningProperties.CloneObjectSucceeds` | Attribulator.ModScript.API/Utils/ValueCloningUtils.cs:63-96 | Copying into a shell of the original's type fails exactly when the clone of a nested VLT value held by a visited property fails. |
| `CloningProperties.CloneObjectCopies` | Attribulator.ModScript.API/Utils/ValueCloningUtils.cs:63-96 | A successful copy has the shell's type and layout, and for every property: no public setter keeps the shell's value; null is null; a string property's value is equal to the original's; a primitive or enum property's value is the same; a host array is copied element for element; a nested value is `CloneObject` of that value in a shell of the declared type; anything else keeps the shell's value. |
| `CloningProperties.CloneObjectIncompatible` | Attribulator.ModScript.API/Utils/ValueCloningUtils.cs:68-94 | With a shell of another type, the shell comes back unchanged when no property is written, and the clone fails when any property is written. |
| `CloningProperties.NestedArrayClone` | Attribulator.ModScript.API/Utils/ValueCloningUtils.cs:77-82 | A nested array goes through the reflective walk, not the array branch. Its capacity, alignment and size are copied from the original, not from the field. Its items are not cloned: they stay the shell's. A shell that is not an array gives `TargetMismatch`. |
| `CloningProperties.NestedPrimitiveClone` | Attribulator.ModScript.API/Utils/ValueCloningUtils.cs:77-82 | A nested primitive gets its scalar through its setter, so a null scalar is written as null too. A shell that is not a primitive gives `TargetMismatch`. |
| `CloningProperties.VehicleWheels` | Attribulator.ModScript.API/Utils/ValueCloningUtils.cs:36-46 | Example: the `Wheels` field (capacity 4, items 1 to 4, stale alignment and size) clones with capacity 4, the field's alignment 4 and size 16, and the items 1 to 4 in order. |

## Left out

- Internals of the type registry (VaultLib): how a type is resolved by game id and name, and how a default instance is built. They are not part of this model. The registry is a table of names plus two arbitrary construction functions. `CreateInstance` and `ConstructInstance` are taken never to fail.
- .NET reflection itself (`GetProperties`, `SetMethod`, `IsPrimitive`, `IsEnum`): each value carries an explicit property list instead (`Reflect`). Each property has a declared-type descriptor and a public-setter flag. The properties that VaultLib's array and primitive types expose are an assumption, described above.
- Reference identity: `new string(str)` and `array.Clone()` make distinct storage in .NET. Dafny sequences are values, so the model states equal contents only and says nothing about aliasing.
- Scalars are integers. Floating-point values, `IConvertible` conversions, and the integer widths of `Capacity`, `ItemAlignment` and `FieldSize` are not modelled.
- A property setter that would throw for a reason other than a wrong target (a value of the wrong type, a throwing setter body) is not modelled. Only the wrong-target error is.
- `Compatible` approximates the test behind .NET's `TargetException`, which only asks that the target be an instance of the property's declaring type. The model rejects a target of a derived type with more properties, which .NET accepts. It accepts a primitive shell of any primitive kind, because `TypeOf` gives every primitive the same runtime type.
- Null originals and throwing getters. `Value` has no null, so the `NullReferenceException` that `originalValue.GetType()` (line 63) throws for a null original or a null array item (line 43) is not modelled. A getter that throws (line 70) is not modelled either: every getter returns its property's value.
- The `VltClass`, `VltCollection` and `Database` arguments are carried only as context for the construction functions. Their contents are not modelled.
- `Attribulator.API/Services/ICommandService.cs`: an interface for registering command types, with no logic.
- `Attribulator.Plugins.ModScript/Commands/GameModScriptCommand.cs`: command-line scaffolding. `Parse` stores one token and `Execute` is empty.
- `YAMLDatabase.Plugins.CoreCommands/UnpackCommand.cs`: a command-line verb whose `Execute` only throws `NotImplementedException`. It is an I/O entry point with no behaviour to model.
