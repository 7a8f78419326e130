/**
 * The type registry the clone engine asks for fresh shells. Its internals
 * (how names resolve, how instances are built) are not part of this model:
 * a registry is a table of resolvable type names plus two arbitrary
 * construction functions, so every property proved here holds whatever
 * default shells they return.
 */
module TypeRegistry {
  import opened Wrappers
  import opened VaultValues

  /** The errors a clone can end in; each aborts the whole clone. */
  datatype VaultError =
    | UnknownType(gameId: GameId, typeName: TypeName)  // no type registered under that name for that game
    | InvalidCast                                       // the shell is not of the kind the code casts it to
    | TargetMismatch                                    // a property setter was called on a shell of another type

  datatype Registry = Registry(
    types: map<(GameId, TypeName), HostType>,
    // the shell for an array field (TypeRegistry.CreateInstance)
    createInstance: (GameId, Context) -> Value,
    // a default-initialised instance of a host type (TypeRegistry.ConstructInstance)
    constructInstance: (HostType, Context) -> Value)

  /** Resolves a type name for a game; an unregistered name is an `UnknownType` error. */
  function ResolveType(reg: Registry, gameId: GameId, typeName: TypeName): (r: Result<HostType, VaultError>)
    ensures r.Success? <==> (gameId, typeName) in reg.types
    ensures r.Success? ==> r.value == reg.types[(gameId, typeName)]
    ensures r.Failure? ==> r.error == UnknownType(gameId, typeName)
  {
    if (gameId, typeName) in reg.types then Success(reg.types[(gameId, typeName)])
    else Failure(UnknownType(gameId, typeName))
  }
}
