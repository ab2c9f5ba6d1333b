/** Failure values of the resolution engine and of the HDF5 output layout.
    Each constructor stands for one `PARTHENON_THROW` / `throw` site. */
module Errors {

  datatype Error =
    | DuplicateProvider(name: string)      // a name `Provides`d twice
    | UnknownDependency                    // a dependency kind Sort cannot classify
    | UnsatisfiedRequirement(name: string) // a `Requires`d name nobody provides
    | SparseMetadataMismatch               // sparse variants of one name not SparseEqual
    | UnknownSwarm(name: string)           // a swarm value for a swarm not registered
    | DuplicateSwarmValue(name: string)    // a swarm value name registered twice
    | DuplicateSwarm(name: string)         // a swarm registered twice
    | UnsupportedLocation                  // an output variable neither Cell nor None

  /** The value of an operation that either returns or throws. */
  datatype Result<T> = Ok(value: T) | Err(error: Error)

  /** The outcome of an operation that returns nothing or throws. */
  datatype Outcome = Pass | Fail(error: Error)
}
