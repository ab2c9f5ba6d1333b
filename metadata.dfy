/** The part of a variable's `Metadata` that the resolution engine looks at.
    Everything else about a variable is summarised by an opaque flag set and a shape,
    which only the two queries `SparseEqual` and `FlagsSet` inspect. */
module Meta {

  /** The dependency kind of a declaration; `Unset` is the default that
      `ValidateMetadata` rewrites to `Provides`. */
  datatype Dependency = Unset | Private | Provides | Requires | Overridable

  /** An opaque capability flag (ghost-zone communication, restart, ...). */
  datatype Flag = Flag(id: nat)

  datatype Metadata = Metadata(
    dependency: Dependency,
    sparse: bool,        // the `Sparse` flag
    sparseId: int,       // `GetSparseId()`
    associated: string,  // `getAssociated()`
    flags: set<Flag>,    // every other flag, uninterpreted
    shape: seq<int>)

  /** `Metadata::SparseEqual`: two sparse variants may share a name. Its
      definition belongs to `Metadata`, which is not part of this model; the
      comparison of flags and shape below stands in for it. The proofs use two
      properties of it only: every metadata record is `SparseEqual` to itself
      (a new sparse list of one variant agrees with its head), and `Validated`
      keeps two records `SparseEqual` (normalising a package keeps its sparse
      lists in agreement). Every statement about `SparseEqual` holds for any
      comparison with these two properties. */
  predicate SparseEqual(a: Metadata, b: Metadata)
  {
    a.flags == b.flags && a.shape == b.shape
  }

  /** `Metadata::FlagsSet(flags, matchAny)`: any (or all) of `query` is set on
      `m`. Like `SparseEqual` it stands in for code of `Metadata`; no proof
      depends on its body. */
  predicate FlagsSet(m: Metadata, query: seq<Flag>, matchAny: bool)
  {
    if matchAny then exists k :: 0 <= k < |query| && query[k] in m.flags
    else forall k :: 0 <= k < |query| ==> query[k] in m.flags
  }

  /** The normalisation `ValidateMetadata` applies to one metadata record:
      an unset dependency becomes `Provides`, nothing else changes. */
  function Validated(m: Metadata): (r: Metadata)
    ensures r.dependency != Unset
    ensures m.dependency != Unset ==> r == m
    ensures m.dependency == Unset ==> r.dependency == Provides
    ensures r.(dependency := m.dependency) == m
  {
    if m.dependency == Unset then m.(dependency := Provides) else m
  }
}
