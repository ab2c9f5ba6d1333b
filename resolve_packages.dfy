/** `ResolvePackages`: merges the declarations of every package into one
    resolved `StateDescriptor`, in three phases (sort everything, check
    requirements, install overridables), with one tracker for fields and
    sparse fields and another for swarms. */
module Resolution {
  import opened Meta
  import opened Errors
  import opened DependencyTracking
  import opened StateDescriptors

  const ResolvedLabel := "parthenon::resolved_state"

  /** The name a private declaration is stored under. */
  function Qualify(package: string, name: string): string
  {
    package + "::" + name
  }

  /** The names a route binds in the resolved state during phase 1: the
      package-qualified name for a private declaration, the bare name for a
      provided one, none for a deferred one. */
  function Target(package: string, v: string, route: Route): set<string>
  {
    match route
    case ToPrivate => {Qualify(package, v)}
    case ToProvides => {v}
    case Deferred => {}
  }

  // ---------------------------------------------------------------------------
  // Declarations, as classification subjects

  /** The single-metadata declarations (plain fields or swarms) of `package`
      among `names`. */
  ghost function MapDecls(package: string, decls: map<string, Metadata>, names: set<string>): set<Decl>
  {
    set n | n in names && n in decls :: Decl(package, n, -1, decls[n])
  }

  /** The first `k` entries of the sparse list `mvec` of `name`, one subject per slot. */
  ghost function EntryDecls(package: string, name: string, mvec: seq<Metadata>, k: int): set<Decl>
  {
    set j | 0 <= j < k && j < |mvec| :: Decl(package, name, j, mvec[j])
  }

  /** Every entry of the sparse lists of `package` among `names`. */
  ghost function SparseDeclsOf(package: string, sparse: map<string, seq<Metadata>>, names: set<string>): set<Decl>
  {
    set n, j | n in names && n in sparse && 0 <= j < |sparse[n]| :: Decl(package, n, j, sparse[n][j])
  }

  ghost function PlainDecls(d: PackageData): set<Decl>
  {
    MapDecls(d.packageName, d.fields, d.fields.Keys)
  }

  ghost function SparseDecls(d: PackageData): set<Decl>
  {
    SparseDeclsOf(d.packageName, d.sparse, d.sparse.Keys)
  }

  ghost function SwarmDecls(d: PackageData): set<Decl>
  {
    MapDecls(d.packageName, d.swarms, d.swarms.Keys)
  }

  /** Everything the field tracker classifies: plain fields and every sparse entry. */
  ghost function AllFieldDecls(ds: seq<PackageData>): set<Decl>
  {
    if ds == [] then {}
    else AllFieldDecls(ds[..|ds| - 1]) + PlainDecls(ds[|ds| - 1]) + SparseDecls(ds[|ds| - 1])
  }

  /** Everything the swarm tracker classifies. */
  ghost function AllSwarmDecls(ds: seq<PackageData>): set<Decl>
  {
    if ds == [] then {} else AllSwarmDecls(ds[..|ds| - 1]) + SwarmDecls(ds[|ds| - 1])
  }

  /** The packages' declarations as values, in the current state. */
  ghost function Snapshot(packages: seq<StateDescriptor>): (r: seq<PackageData>)
    reads set p | p in packages
    ensures |r| == |packages|
    ensures forall j :: 0 <= j < |packages| ==> r[j] == packages[j].Data()
  {
    if packages == [] then []
    else Snapshot(packages[..|packages| - 1]) + [packages[|packages| - 1].Data()]
  }

  /** The package-qualified names of the private declarations. */
  ghost function QualifiedNames(ds: set<Decl>): set<string>
  {
    set d | d in ds && d.meta.dependency == Private :: Qualify(d.package, d.name)
  }

  /** The names phase 1 installs: provided names bare, private names qualified. */
  ghost function Installed(ds: set<Decl>): set<string>
  {
    NamesWith(ds, Provides) + QualifiedNames(ds)
  }

  /** The names of the resolved state: phase 1's, plus every overridable name
      that nobody provides. */
  ghost function Resolved(ds: set<Decl>): set<string>
  {
    Installed(ds) + (NamesWith(ds, Overridable) - NamesWith(ds, Provides))
  }

  /** No declaration of `ds` has an unset dependency kind: what
      `ValidateMetadata` leaves behind. */
  ghost predicate Normalised(ds: set<Decl>)
  {
    forall d :: d in ds ==> d.meta.dependency != Unset
  }

  // ---------------------------------------------------------------------------
  // Where a binding of the resolved state comes from

  /** The name phase 1 binds a routed declaration to: the package-qualified
      name for a private one, the bare name otherwise. */
  function BindName(d: Decl): string
  {
    if d.meta.dependency == Private then Qualify(d.package, d.name) else d.name
  }

  /** Phase 1 routes `d` to `n`: it is private or provided, and `n` is the
      name it is bound to. */
  predicate Routes(d: Decl, n: string)
  {
    (d.meta.dependency == Private || d.meta.dependency == Provides) && BindName(d) == n
  }

  /** Phase 3 installs the overridable declaration `d` under `n`: its own
      name, which no declaration of `ds` provides. */
  ghost predicate Overrides(d: Decl, n: string, ds: set<Decl>)
  {
    d.meta.dependency == Overridable && d.name == n && n !in NamesWith(ds, Provides)
  }

  /** The sparse declaration `d` is stored under `n`: phase 1 adds its
      package's whole list for its name there when some entry of that list is
      routed to `n`, and phase 3 installs `d` itself there when it overrides
      `n`. */
  ghost predicate StoredUnder(U: set<Decl>, d: Decl, n: string)
  {
    || (exists e :: e in U && e.meta.sparse && e.package == d.package && e.name == d.name && Routes(e, n))
    || Overrides(d, n, U)
  }

  /** `AddField` stores a plain field without its association. */
  function Stored(m: Metadata): Metadata
  {
    m.(associated := "")
  }

  /** The plain binding `n := m` comes from a non-sparse declaration of `U`
      routed or installed under `n`, stored as `AddField` stores it. */
  ghost predicate PlainFrom(U: set<Decl>, n: string, m: Metadata)
  {
    exists d :: d in U && !d.meta.sparse && (Routes(d, n) || Overrides(d, n, U)) && m == Stored(d.meta)
  }

  /** The sparse variant `m` stored under `n` is the metadata of a sparse
      declaration stored there. */
  ghost predicate EntryFrom(U: set<Decl>, n: string, m: Metadata)
  {
    exists d :: d in U && d.meta.sparse && StoredUnder(U, d, n) && d.meta == m
  }

  /** Some variant of `ms` has the sparse id `id`. */
  predicate HasId(ms: seq<Metadata>, id: int)
  {
    exists k :: 0 <= k < |ms| && ms[k].sparseId == id
  }

  /** Every plain binding and every stored sparse variant comes from the
      declarations `U`. */
  ghost predicate FieldProvenance(fields: map<string, Metadata>, sparse: map<string, seq<Metadata>>, U: set<Decl>)
  {
    && (forall n :: n in fields ==> PlainFrom(U, n, fields[n]))
    && (forall n, k :: n in sparse && 0 <= k < |sparse[n]| ==> EntryFrom(U, n, sparse[n][k]))
  }

  /** The declaration `d` is bound under `n`: a plain one has a binding there,
      a sparse one has its id among the variants stored there. */
  ghost predicate BoundAt(fields: map<string, Metadata>, sparse: map<string, seq<Metadata>>, d: Decl, n: string)
  {
    if !d.meta.sparse then n in fields else n in sparse && HasId(sparse[n], d.meta.sparseId)
  }

  /** Every private or provided declaration of `acc` is bound under the name
      it is routed to. */
  ghost predicate FieldCoverage(fields: map<string, Metadata>, sparse: map<string, seq<Metadata>>, acc: set<Decl>)
  {
    forall d :: d in acc && Routes(d, BindName(d)) ==> BoundAt(fields, sparse, d, BindName(d))
  }

  /** The field bindings once phase 1 has sorted `acc`, out of all the field
      declarations `U`: the names bound are those routed, every binding comes
      from `U`, and every routed declaration of `acc` is bound. */
  ghost predicate FieldsFrom(fields: map<string, Metadata>, sparse: map<string, seq<Metadata>>, acc: set<Decl>,
                             U: set<Decl>)
  {
    FieldBindings(fields, sparse, acc, U)
  }

  /** The facts of `FieldsFrom`, spelled out. `FieldsFrom` keeps them behind
      one call, so that each step of phase 1 proves them as a single fact. */
  ghost predicate FieldBindings(fields: map<string, Metadata>, sparse: map<string, seq<Metadata>>, acc: set<Decl>,
                                U: set<Decl>)
  {
    && acc <= U
    && fields.Keys + sparse.Keys == Installed(acc)
    && FieldProvenance(fields, sparse, U)
    && FieldCoverage(fields, sparse, acc)
  }

  /** Every binding of `f1, s1` is kept by `f2, s2`: plain ones unchanged,
      sparse lists at most extended at their end. */
  ghost predicate FieldsGrow(f1: map<string, Metadata>, s1: map<string, seq<Metadata>>,
                             f2: map<string, Metadata>, s2: map<string, seq<Metadata>>)
  {
    && (forall n :: n in f1 ==> n in f2 && f2[n] == f1[n])
    && (forall n :: n in s1 ==> n in s2 && s1[n] <= s2[n])
  }

  /** The values the package labelled `package` declares for `swarm`. */
  ghost function DeclaredValues(ds: seq<PackageData>, package: string, swarm: string): map<string, Metadata>
  {
    if ds == [] then map[]
    else if ds[0].packageName == package then ValuesOf(ds[0].swarmValues, swarm)
    else DeclaredValues(ds[1..], package, swarm)
  }

  /** The values an overridable swarm receives: those of the FIRST package, in
      iteration order, that has a swarm of that name, whatever that package's
      own dependency kind for it; none if no package has one. */
  ghost function FirstValues(ds: seq<PackageData>, swarm: string): map<string, Metadata>
  {
    if ds == [] then map[]
    else if swarm in ds[0].swarms then ValuesOf(ds[0].swarmValues, swarm)
    else FirstValues(ds[1..], swarm)
  }

  /** The swarm binding `n := m` with the values `vals` comes from a swarm
      declaration of `Us`: routed there, with the values its own package
      declares, or installed there as an overridable one, with the values of
      the first package that has the swarm. */
  ghost predicate SwarmFrom(Us: set<Decl>, ds: seq<PackageData>, n: string, m: Metadata, vals: map<string, Metadata>)
  {
    exists d :: d in Us && d.meta == m &&
      ((Routes(d, n) && vals == DeclaredValues(ds, d.package, d.name)) ||
       (Overrides(d, n, Us) && vals == FirstValues(ds, n)))
  }

  /** Every swarm binding, with its values, comes from the declarations `Us`. */
  ghost predicate SwarmProvenance(swarms: map<string, Metadata>, values: map<string, map<string, Metadata>>,
                                  Us: set<Decl>, ds: seq<PackageData>)
  {
    forall n :: n in swarms ==> SwarmFrom(Us, ds, n, swarms[n], ValuesOf(values, n))
  }

  /** Every routed swarm declaration of `acc` is bound under its name with its
      own metadata and the values its package declares. */
  ghost predicate SwarmCoverage(swarms: map<string, Metadata>, values: map<string, map<string, Metadata>>,
                                acc: set<Decl>, ds: seq<PackageData>)
  {
    forall d :: d in acc && Routes(d, BindName(d)) ==>
      && BindName(d) in swarms && swarms[BindName(d)] == d.meta
      && ValuesOf(values, BindName(d)) == DeclaredValues(ds, d.package, d.name)
  }

  /** The swarm bindings once phase 1 has sorted `acc`, out of all the swarm
      declarations `Us` of the packages `ds`. */
  ghost predicate SwarmsFrom(swarms: map<string, Metadata>, values: map<string, map<string, Metadata>>,
                             acc: set<Decl>, Us: set<Decl>, ds: seq<PackageData>)
  {
    && acc <= Us
    && swarms.Keys == Installed(acc)
    && SwarmProvenance(swarms, values, Us, ds)
    && SwarmCoverage(swarms, values, acc, ds)
  }

  // ---------------------------------------------------------------------------
  // Why a resolution throws

  /** Two different declarations provide `v`. */
  ghost predicate TwoProviders(ds: set<Decl>, v: string)
  {
    exists d1, d2 :: d1 in ds && d2 in ds && d1 != d2 && d1.name == v && d2.name == v &&
      d1.meta.dependency == Provides && d2.meta.dependency == Provides
  }

  /** Two sparse declarations stored under a common name are not
      `SparseEqual`. */
  ghost predicate SparseClash(ds: set<Decl>)
  {
    exists d1, d2, n :: d1 in ds && d2 in ds && d1.meta.sparse && d2.meta.sparse &&
      StoredUnder(ds, d1, n) && StoredUnder(ds, d2, n) && !SparseEqual(d1.meta, d2.meta)
  }

  /** The swarm name `n` is registered twice: phase 1 routes two different
      declarations there, or routes one there and phase 3 installs another
      there; or phase 3 installs two overridable declarations there, the
      second sparse and the first either not sparse or of another id (the
      only way both can become candidates of `n`). */
  ghost predicate SwarmClash(ds: set<Decl>, n: string)
  {
    || (exists d1, d2 :: d1 in ds && d2 in ds && d1 != d2 && Routes(d1, n) && (Routes(d2, n) || Overrides(d2, n, ds)))
    || (exists d1, d2 :: d1 in ds && d2 in ds && Overrides(d1, n, ds) && Overrides(d2, n, ds) && d2.meta.sparse &&
          (d1.meta.sparse ==> d1.meta.sparseId != d2.meta.sparseId))
  }

  /** An overridable swarm of a provided name is never installed, so it
      registers nothing twice: one package providing `s` and another
      declaring it overridable is no clash. */
  lemma ProvidedOverridableSwarm(m1: Metadata, m2: Metadata, n: string)
    requires m1.dependency == Provides && m2.dependency == Overridable
    ensures !SwarmClash({Decl("p", "s", -1, m1), Decl("q", "s", -1, m2)}, n)
  {
    var Us := {Decl("p", "s", -1, m1), Decl("q", "s", -1, m2)};
    assert "s" in NamesWith(Us, Provides) by {
      assert Decl("p", "s", -1, m1) in Us;
    }
  }

  /** Private sparse fields of one name in two packages are stored under two
      different qualified names, so their variants are never compared. */
  lemma PrivateSparseApart(m1: Metadata, m2: Metadata)
    requires m1.dependency == Private && m2.dependency == Private && m1.sparse && m2.sparse
    ensures !SparseClash({Decl("p", "x", 0, m1), Decl("q", "x", 0, m2)})
  {
    var U := {Decl("p", "x", 0, m1), Decl("q", "x", 0, m2)};
    forall d, n | d in U && StoredUnder(U, d, n) ensures n == Qualify(d.package, "x") {
      var e :| e in U && e.meta.sparse && e.package == d.package && e.name == d.name && Routes(e, n);
    }
    assert Qualify("p", "x") != Qualify("q", "x") by {
      assert Qualify("p", "x")[0] != Qualify("q", "x")[0];
    }
  }

  /** What a throw while sorting or installing fields can be: a second
      provider, or sparse variants under one name that are not `SparseEqual`. */
  ghost predicate FieldFailure(e: Error, ds: set<Decl>)
  {
    match e
    case DuplicateProvider(v) => TwoProviders(ds, v)
    case SparseMetadataMismatch => SparseClash(ds)
    case _ => false
  }

  /** What a throw while sorting or installing swarms can be: a second
      provider, or a second registration of one swarm name. */
  ghost predicate SwarmFailure(e: Error, ds: set<Decl>)
  {
    match e
    case DuplicateProvider(v) => TwoProviders(ds, v)
    case DuplicateSwarm(v) => SwarmClash(ds, v)
    case _ => false
  }

  /** `v` is required by some declaration of `ds` and provided by none. */
  ghost predicate Unsatisfied(ds: set<Decl>, v: string)
  {
    v in NamesWith(ds, Requires) && v !in NamesWith(ds, Provides)
  }

  // ---------------------------------------------------------------------------
  // Lemmas on declaration sets

  /** Draining one more name from `remaining` adds it to the names done. */
  lemma DrainStep(all: set<string>, remaining: set<string>, v: string)
    requires remaining <= all && v in remaining
    ensures all - (remaining - {v}) == (all - remaining) + {v}
    ensures v !in all - remaining
  {
  }

  lemma MapDeclsAdd(done: set<Decl>, package: string, decls: map<string, Metadata>, names: set<string>, v: string)
    requires v in decls && v !in names
    requires forall d :: d in done ==> d.package != package
    ensures Decl(package, v, -1, decls[v]) !in done + MapDecls(package, decls, names)
    ensures done + MapDecls(package, decls, names) + {Decl(package, v, -1, decls[v])}
         == done + MapDecls(package, decls, names + {v})
  {
  }

  lemma EntryDeclsAdd(package: string, n: string, mvec: seq<Metadata>, k: int)
    requires 0 <= k < |mvec|
    ensures Decl(package, n, k, mvec[k]) !in EntryDecls(package, n, mvec, k)
    ensures EntryDecls(package, n, mvec, k) + {Decl(package, n, k, mvec[k])} == EntryDecls(package, n, mvec, k + 1)
    ensures EntryDecls(package, n, mvec, k + 1) <= EntryDecls(package, n, mvec, |mvec|)
  {
  }

  /** No entry of a sparse list not yet sorted is among the declarations sorted. */
  lemma EntriesFresh(done: set<Decl>, package: string, sparse: map<string, seq<Metadata>>, names: set<string>,
                     n: string)
    requires n in sparse && n !in names
    requires forall d :: d in done ==> d.package != package || d.slot < 0
    ensures forall d :: d in EntryDecls(package, n, sparse[n], |sparse[n]|) ==>
      d !in done + SparseDeclsOf(package, sparse, names)
  {
  }

  lemma SparseDeclsAdd(package: string, sparse: map<string, seq<Metadata>>, names: set<string>, n: string)
    requires n in sparse
    ensures SparseDeclsOf(package, sparse, names) + EntryDecls(package, n, sparse[n], |sparse[n]|)
         == SparseDeclsOf(package, sparse, names + {n})
  {
    var lhs := SparseDeclsOf(package, sparse, names) + EntryDecls(package, n, sparse[n], |sparse[n]|);
    var rhs := SparseDeclsOf(package, sparse, names + {n});
    forall d | d in rhs ensures d in lhs {
      var m, j :| m in names + {n} && m in sparse && 0 <= j < |sparse[m]| && d == Decl(package, m, j, sparse[m][j]);
      if m == n {
        assert d in EntryDecls(package, n, sparse[n], |sparse[n]|);
      }
    }
  }

  lemma SparseDeclsMono(package: string, sparse: map<string, seq<Metadata>>, names: set<string>)
    ensures SparseDeclsOf(package, sparse, names) <= SparseDeclsOf(package, sparse, sparse.Keys)
  {
  }

  lemma InstalledAdd(ds: set<Decl>, d: Decl)
    ensures Installed(ds + {d}) == Installed(ds) +
      (if d.meta.dependency == Provides then {d.name}
       else if d.meta.dependency == Private then {Qualify(d.package, d.name)} else {})
  {
    NamesWithAdd(ds, d, Provides);
    assert forall e :: e in ds + {d} ==> e in ds || e == d;
  }

  lemma TwoProvidersGrows(ds: set<Decl>, more: set<Decl>, v: string)
    requires ds <= more && TwoProviders(ds, v)
    ensures TwoProviders(more, v)
  {
    var d1, d2 :| d1 in ds && d2 in ds && d1 != d2 && d1.name == v && d2.name == v &&
      d1.meta.dependency == Provides && d2.meta.dependency == Provides;
    assert d1 in more && d2 in more;
  }

  /** A name phase 1 installed is the name some sorted declaration is routed to. */
  lemma InstalledRouted(acc: set<Decl>, n: string) returns (d: Decl)
    requires n in Installed(acc)
    ensures d in acc && Routes(d, n)
  {
    if n in NamesWith(acc, Provides) {
      d :| d in acc && d.meta.dependency == Provides && d.name == n;
    } else {
      d :| d in acc && d.meta.dependency == Private && Qualify(d.package, d.name) == n;
    }
  }

  /** A successful Sort of a declaration extends what the tracker summarises
      by it, and phase 1 installs exactly the names its route targets. */
  lemma SortInstalls(t: Tracker, ds: set<Decl>, d: Decl)
    requires Tracks(t, ds) && d !in ds
    requires SortStep(t, d.name, d.meta).Ok?
    ensures Tracks(SortStep(t, d.name, d.meta).value.0, ds + {d})
    ensures Installed(ds + {d}) == Installed(ds) + Target(d.package, d.name, SortStep(t, d.name, d.meta).value.1)
  {
    SortTracks(t, ds, d);
    InstalledAdd(ds, d);
  }

  /** A throw of Sort on a declaration not yet sorted is the unknown-kind one
      for an unset kind, or a second provider among the declarations sorted so
      far plus that one. */
  lemma SortThrowExplained(t: Tracker, ds: set<Decl>, d: Decl)
    requires Tracks(t, ds)
    requires d !in ds
    requires SortStep(t, d.name, d.meta).Err?
    ensures var e := SortStep(t, d.name, d.meta).error;
      || (e == UnknownDependency && d.meta.dependency == Unset)
      || (e == DuplicateProvider(d.name) && TwoProviders(ds + {d}, d.name))
  {
    SortThrows(t, ds, d);
    if d.meta.dependency == Provides {
      var d' :| d' in ds && d'.meta.dependency == Provides && d'.name == d.name;
      assert d' in ds + {d} && d in ds + {d} && d' != d;
    }
  }

  /** A throw of Sort on a declaration of the normalised `U` is a second
      provider within `U`. */
  lemma SortFailure(e: Error, ds: set<Decl>, d: Decl, U: set<Decl>)
    requires ds <= U && d in U && Normalised(U)
    requires || (e == UnknownDependency && d.meta.dependency == Unset)
             || (e == DuplicateProvider(d.name) && TwoProviders(ds + {d}, d.name))
    ensures e == DuplicateProvider(d.name) && TwoProviders(U, d.name)
    ensures FieldFailure(e, U) && SwarmFailure(e, U)
  {
    assert d.meta.dependency != Unset;
    TwoProvidersGrows(ds + {d}, U, d.name);
  }

  // ---------------------------------------------------------------------------
  // Lemmas on field bindings

  lemma BoundGrows(f1: map<string, Metadata>, s1: map<string, seq<Metadata>>,
                   f2: map<string, Metadata>, s2: map<string, seq<Metadata>>, d: Decl, n: string)
    requires BoundAt(f1, s1, d, n) && FieldsGrow(f1, s1, f2, s2)
    ensures BoundAt(f2, s2, d, n)
  {
    if d.meta.sparse {
      var k :| 0 <= k < |s1[n]| && s1[n][k].sparseId == d.meta.sparseId;
      assert s2[n][k] == s1[n][k];
    }
  }

  lemma CoverageGrows(f1: map<string, Metadata>, s1: map<string, seq<Metadata>>,
                      f2: map<string, Metadata>, s2: map<string, seq<Metadata>>, acc: set<Decl>)
    requires FieldCoverage(f1, s1, acc) && FieldsGrow(f1, s1, f2, s2)
    ensures FieldCoverage(f2, s2, acc)
  {
    forall d | d in acc && Routes(d, BindName(d)) ensures BoundAt(f2, s2, d, BindName(d)) {
      BoundGrows(f1, s1, f2, s2, d, BindName(d));
    }
  }

  /** Two stored variants under one name that are not `SparseEqual` are a
      clash of two sparse declarations. */
  lemma ClashOfEntries(U: set<Decl>, n: string, a: Metadata, b: Metadata)
    requires EntryFrom(U, n, a) && EntryFrom(U, n, b) && !SparseEqual(a, b)
    ensures SparseClash(U)
  {
    var d1 :| d1 in U && d1.meta.sparse && StoredUnder(U, d1, n) && d1.meta == a;
    var d2 :| d2 in U && d2.meta.sparse && StoredUnder(U, d2, n) && d2.meta == b;
    assert d1 in U && d2 in U && StoredUnder(U, d1, n) && StoredUnder(U, d2, n);
  }

  /** The plain fields after `AddField(n, m)` of a non-sparse `m`: the first
      registration of a name wins, and is stored without association. */
  function PlainAdded(fields: map<string, Metadata>, n: string, m: Metadata): map<string, Metadata>
  {
    if n in fields then fields else fields[n := Stored(m)]
  }

  /** Routing a plain declaration keeps what phase 1 has established. */
  lemma PlainStep(f: map<string, Metadata>, s: map<string, seq<Metadata>>, acc: set<Decl>, U: set<Decl>, d: Decl)
    requires FieldsFrom(f, s, acc, U)
    requires d in U && !d.meta.sparse && Routes(d, BindName(d))
    requires Installed(acc + {d}) == Installed(acc) + {BindName(d)}
    ensures FieldsFrom(PlainAdded(f, BindName(d), d.meta), s, acc + {d}, U)
  {
    var f2 := PlainAdded(f, BindName(d), d.meta);
    PlainCoverage(f, s, acc, d);
    PlainProvenance(f, s, U, d);
  }

  /** Routing a plain declaration binds it and keeps every binding made. */
  lemma PlainCoverage(f: map<string, Metadata>, s: map<string, seq<Metadata>>, acc: set<Decl>, d: Decl)
    requires FieldCoverage(f, s, acc) && !d.meta.sparse
    ensures FieldCoverage(PlainAdded(f, BindName(d), d.meta), s, acc + {d})
  {
    var f2 := PlainAdded(f, BindName(d), d.meta);
    assert FieldsGrow(f, s, f2, s);
    CoverageGrows(f, s, f2, s, acc);
  }

  /** Routing a plain declaration of `U` keeps every binding's provenance. */
  lemma PlainProvenance(f: map<string, Metadata>, s: map<string, seq<Metadata>>, U: set<Decl>, d: Decl)
    requires FieldProvenance(f, s, U)
    requires d in U && !d.meta.sparse && Routes(d, BindName(d))
    ensures FieldProvenance(PlainAdded(f, BindName(d), d.meta), s, U)
  {
    var n := BindName(d);
    var f2 := PlainAdded(f, n, d.meta);
    forall w | w in f2 ensures PlainFrom(U, w, f2[w]) {
      if w !in f {
        assert w == n && f2[w] == Stored(d.meta) && Routes(d, w);
      }
    }
  }

  /** A declaration phase 1 does not route keeps what it has established. */
  lemma DeferredStep(f: map<string, Metadata>, s: map<string, seq<Metadata>>, acc: set<Decl>, U: set<Decl>, d: Decl)
    requires FieldsFrom(f, s, acc, U)
    requires d in U && !Routes(d, BindName(d))
    requires Installed(acc + {d}) == Installed(acc)
    ensures FieldsFrom(f, s, acc + {d}, U)
  {
  }

  // ---------------------------------------------------------------------------
  // Sparse lists

  /** The variants stored under `n`, none if absent. */
  function Listed(sparse: map<string, seq<Metadata>>, n: string): seq<Metadata>
  {
    if n in sparse then sparse[n] else []
  }

  /** The list after `AddField` of the sparse `m` succeeds on the list `ms`
      (empty when the name is absent): a new list, no change when the first
      variant has `m`'s id, `m` appended otherwise. */
  function Appended(ms: seq<Metadata>, m: Metadata): seq<Metadata>
  {
    if ms == [] then [m] else if ms[0].sparseId == m.sparseId then ms else ms + [m]
  }

  /** The list after every variant of `mvec`, in order, has been added to `ms`. */
  function Merged(ms: seq<Metadata>, mvec: seq<Metadata>): seq<Metadata>
    decreases |mvec|
  {
    if mvec == [] then ms else Appended(Merged(ms, mvec[..|mvec| - 1]), mvec[|mvec| - 1])
  }

  /** The variant every later one is compared with: the list's first, or the
      first one added to an empty list. */
  function Head(ms: seq<Metadata>, mvec: seq<Metadata>): Metadata
    requires ms != [] || mvec != []
  {
    if ms != [] then ms[0] else mvec[0]
  }

  lemma MergedSnoc(ms: seq<Metadata>, mvec: seq<Metadata>, k: int)
    requires 0 <= k < |mvec|
    ensures Merged(ms, mvec[..k + 1]) == Appended(Merged(ms, mvec[..k]), mvec[k])
  {
    assert mvec[..k + 1][..k] == mvec[..k];
  }

  /** Merging only extends a list, and never changes the variant it starts with. */
  lemma {:induction false} MergedPrefix(ms: seq<Metadata>, mvec: seq<Metadata>)
    ensures ms <= Merged(ms, mvec)
    ensures ms != [] || mvec != [] ==> Merged(ms, mvec) != [] && Merged(ms, mvec)[0] == Head(ms, mvec)
  {
    if mvec != [] {
      var pre := mvec[..|mvec| - 1];
      MergedPrefix(ms, pre);
      var M := Merged(ms, pre);
      assert M <= Appended(M, mvec[|mvec| - 1]);
      if ms == [] && pre != [] {
        assert pre[0] == mvec[0];
      }
    }
  }

  /** Every variant of a merged list was in the list or among those merged. */
  lemma {:induction false} MergedElems(ms: seq<Metadata>, mvec: seq<Metadata>, k: int)
    requires 0 <= k < |Merged(ms, mvec)|
    ensures Merged(ms, mvec)[k] in ms || Merged(ms, mvec)[k] in mvec
  {
    if mvec != [] {
      var pre := mvec[..|mvec| - 1];
      var M := Merged(ms, pre);
      var m := mvec[|mvec| - 1];
      if k < |M| {
        assert Appended(M, m)[k] == M[k];
        MergedElems(ms, pre, k);
        if M[k] in pre {
          var i := IndexOf(pre, M[k]);
          assert mvec[i] == M[k];
        }
      } else {
        assert Appended(M, m)[k] == m;
      }
    }
  }

  /** Every variant merged leaves its id in the list. */
  lemma {:induction false} MergedHasId(ms: seq<Metadata>, mvec: seq<Metadata>, j: int)
    requires 0 <= j < |mvec|
    ensures HasId(Merged(ms, mvec), mvec[j].sparseId)
  {
    var pre := mvec[..|mvec| - 1];
    var M := Merged(ms, pre);
    var m := mvec[|mvec| - 1];
    if j < |mvec| - 1 {
      MergedHasId(ms, pre, j);
      var k :| 0 <= k < |M| && M[k].sparseId == pre[j].sparseId;
      assert Appended(M, m)[k] == M[k];
    } else if M == [] {
      assert Appended(M, m)[0] == m;
    } else if M[0].sparseId != m.sparseId {
      assert Appended(M, m)[|M|] == m;
    } else {
      assert Appended(M, m)[0] == M[0];
    }
  }

  /** Merging the entries of a sparse declaration under the name it is routed
      to keeps what phase 1 has established. */
  lemma SparseStep(f: map<string, Metadata>, s: map<string, seq<Metadata>>, acc: set<Decl>, U: set<Decl>,
                   d: Decl, mvec: seq<Metadata>)
    requires FieldsFrom(f, s, acc, U)
    requires d in U && d.meta.sparse && Routes(d, BindName(d))
    requires 0 <= d.slot < |mvec| && mvec[d.slot] == d.meta
    requires forall j :: 0 <= j < |mvec| ==> EntryFrom(U, BindName(d), mvec[j])
    requires Installed(acc + {d}) == Installed(acc) + {BindName(d)}
    ensures FieldsFrom(f, s[BindName(d) := Merged(Listed(s, BindName(d)), mvec)], acc + {d}, U)
  {
    MergedKeys(f, s, acc, d, mvec);
    MergedCoverage(f, s, acc, d, mvec);
    MergedProvenance(f, s, U, BindName(d), mvec);
  }

  /** Merging entries under the name a sparse declaration is routed to adds
      that name, and only that one. */
  lemma MergedKeys(f: map<string, Metadata>, s: map<string, seq<Metadata>>, acc: set<Decl>, d: Decl,
                   mvec: seq<Metadata>)
    requires f.Keys + s.Keys == Installed(acc)
    requires Installed(acc + {d}) == Installed(acc) + {BindName(d)}
    ensures f.Keys + s[BindName(d) := Merged(Listed(s, BindName(d)), mvec)].Keys == Installed(acc + {d})
  {
    var n := BindName(d);
    assert s[n := Merged(Listed(s, n), mvec)].Keys == s.Keys + {n};
  }

  /** Merging a sparse declaration's entries under the name it is routed to
      binds it there and keeps every binding already made. */
  lemma MergedCoverage(f: map<string, Metadata>, s: map<string, seq<Metadata>>, acc: set<Decl>, d: Decl,
                       mvec: seq<Metadata>)
    requires FieldCoverage(f, s, acc)
    requires d.meta.sparse && 0 <= d.slot < |mvec| && mvec[d.slot] == d.meta
    ensures FieldCoverage(f, s[BindName(d) := Merged(Listed(s, BindName(d)), mvec)], acc + {d})
  {
    var n := BindName(d);
    var L := Listed(s, n);
    var s2 := s[n := Merged(L, mvec)];
    MergedPrefix(L, mvec);
    assert FieldsGrow(f, s, f, s2);
    CoverageGrows(f, s, f, s2, acc);
    MergedHasId(L, mvec, d.slot);
    assert BoundAt(f, s2, d, n);
  }

  /** Merging entries some package declares for `n` into the list stored
      under `n` keeps every binding's provenance. */
  lemma MergedProvenance(f: map<string, Metadata>, s: map<string, seq<Metadata>>, U: set<Decl>, n: string,
                         mvec: seq<Metadata>)
    requires FieldProvenance(f, s, U)
    requires forall j :: 0 <= j < |mvec| ==> EntryFrom(U, n, mvec[j])
    ensures FieldProvenance(f, s[n := Merged(Listed(s, n), mvec)], U)
  {
    var L := Listed(s, n);
    var s2 := s[n := Merged(L, mvec)];
    forall w, j | w in s2 && 0 <= j < |s2[w]| ensures EntryFrom(U, w, s2[w][j]) {
      if w == n {
        MergedElems(L, mvec, j);
        if s2[w][j] in L {
          var i := IndexOf(L, s2[w][j]);
          assert s[n][i] == L[i];
        } else {
          var i := IndexOf(mvec, s2[w][j]);
        }
      }
    }
  }

  /** A variant of `mvec` that is not `SparseEqual` to the head of the
      list it is merged into is a clash of two sparse declarations. */
  lemma ListClash(f: map<string, Metadata>, s: map<string, seq<Metadata>>, U: set<Decl>, n: string, mvec: seq<Metadata>)
    requires FieldProvenance(f, s, U)
    requires mvec != [] && forall j :: 0 <= j < |mvec| ==> EntryFrom(U, n, mvec[j])
    requires !forall j :: 0 <= j < |mvec| ==> SparseEqual(Head(Listed(s, n), mvec), mvec[j])
    ensures SparseClash(U)
  {
    var j :| 0 <= j < |mvec| && !SparseEqual(Head(Listed(s, n), mvec), mvec[j]);
    if Listed(s, n) != [] {
      assert EntryFrom(U, n, s[n][0]);
    } else {
      assert EntryFrom(U, n, mvec[0]);
    }
    ClashOfEntries(U, n, Head(Listed(s, n), mvec), mvec[j]);
  }

  // ---------------------------------------------------------------------------
  // Swarm bindings

  /** Registering a routed swarm with its package's values keeps what phase 1
      has established. */
  lemma SwarmStep(sw: map<string, Metadata>, vals: map<string, map<string, Metadata>>,
                  sw2: map<string, Metadata>, vals2: map<string, map<string, Metadata>>,
                  acc: set<Decl>, Us: set<Decl>, ds: seq<PackageData>, d: Decl)
    requires SwarmsFrom(sw, vals, acc, Us, ds)
    requires d in Us && Routes(d, BindName(d))
    requires BindName(d) !in sw && sw2 == sw[BindName(d) := d.meta]
    requires ValuesOf(vals2, BindName(d)) == DeclaredValues(ds, d.package, d.name)
    requires forall w :: w != BindName(d) ==> ValuesOf(vals2, w) == ValuesOf(vals, w)
    requires Installed(acc + {d}) == Installed(acc) + {BindName(d)}
    ensures SwarmsFrom(sw2, vals2, acc + {d}, Us, ds)
  {
    RoutedProvenance(sw, vals, sw2, vals2, Us, ds, d);
    RoutedCoverage(sw, vals, sw2, vals2, acc, ds, d);
    RoutedKeys(sw, sw2, acc, d);
  }

  /** Registering the routed swarm `d` with its package's values keeps every
      swarm binding's provenance. */
  lemma RoutedProvenance(sw: map<string, Metadata>, vals: map<string, map<string, Metadata>>,
                         sw2: map<string, Metadata>, vals2: map<string, map<string, Metadata>>,
                         Us: set<Decl>, ds: seq<PackageData>, d: Decl)
    requires SwarmProvenance(sw, vals, Us, ds)
    requires d in Us && Routes(d, BindName(d)) && sw2 == sw[BindName(d) := d.meta]
    requires ValuesOf(vals2, BindName(d)) == DeclaredValues(ds, d.package, d.name)
    requires forall w :: w != BindName(d) ==> ValuesOf(vals2, w) == ValuesOf(vals, w)
    ensures SwarmProvenance(sw2, vals2, Us, ds)
  {
    var n := BindName(d);
    forall w | w in sw2 ensures SwarmFrom(Us, ds, w, sw2[w], ValuesOf(vals2, w)) {
      if w == n {
        assert d in Us && d.meta == sw2[w] && Routes(d, w);
      } else {
        assert SwarmFrom(Us, ds, w, sw[w], ValuesOf(vals, w));
      }
    }
  }

  /** Registering the routed swarm `d` under a name not yet bound binds it
      and keeps every routed declaration already bound. */
  lemma RoutedCoverage(sw: map<string, Metadata>, vals: map<string, map<string, Metadata>>,
                       sw2: map<string, Metadata>, vals2: map<string, map<string, Metadata>>,
                       acc: set<Decl>, ds: seq<PackageData>, d: Decl)
    requires SwarmCoverage(sw, vals, acc, ds)
    requires BindName(d) !in sw && sw2 == sw[BindName(d) := d.meta]
    requires ValuesOf(vals2, BindName(d)) == DeclaredValues(ds, d.package, d.name)
    requires forall w :: w != BindName(d) ==> ValuesOf(vals2, w) == ValuesOf(vals, w)
    ensures SwarmCoverage(sw2, vals2, acc + {d}, ds)
  {
    var n := BindName(d);
    forall e | e in acc + {d} && Routes(e, BindName(e))
      ensures BindName(e) in sw2 && sw2[BindName(e)] == e.meta
      ensures ValuesOf(vals2, BindName(e)) == DeclaredValues(ds, e.package, e.name)
    {
      if e != d {
        assert BindName(e) in sw && BindName(e) != n;
      }
    }
  }

  /** Registering the routed swarm `d` adds the name it is routed to, and
      only that one. */
  lemma RoutedKeys(sw: map<string, Metadata>, sw2: map<string, Metadata>, acc: set<Decl>, d: Decl)
    requires sw.Keys == Installed(acc) && sw2 == sw[BindName(d) := d.meta]
    requires Installed(acc + {d}) == Installed(acc) + {BindName(d)}
    ensures sw2.Keys == Installed(acc + {d})
  {
  }

  /** A declaration routed to a name that another declaration is routed or
      installed to is a swarm clash. */
  lemma RoutedTwice(Us: set<Decl>, d1: Decl, d2: Decl, n: string)
    requires d1 in Us && d2 in Us && d1 != d2 && Routes(d1, n) && (Routes(d2, n) || Overrides(d2, n, Us))
    ensures SwarmClash(Us, n)
  {
  }

  // ---------------------------------------------------------------------------
  // One Sort, with the bookkeeping of what has been sorted

  /** `Sort` of the declaration `Decl(package, v, slot, m)` on a tracker that
      summarises the declarations `ds`, none of which it is. */
  method SortDecl(tracker: DependencyTracker, package: string, v: string, m: Metadata,
                  ghost slot: int, ghost ds: set<Decl>)
    returns (r: Result<Route>)
    requires tracker.Valid() && Tracks(tracker.State(), ds)
    requires Decl(package, v, slot, m) !in ds
    modifies tracker
    ensures tracker.Valid()
    ensures r.Ok? ==>
      && Tracks(tracker.State(), ds + {Decl(package, v, slot, m)})
      && Installed(ds + {Decl(package, v, slot, m)}) == Installed(ds) + Target(package, v, r.value)
      && (r.value == ToPrivate <==> m.dependency == Private)
      && (r.value == ToProvides <==> m.dependency == Provides)
    ensures r.Err? ==>
      || (r.error == UnknownDependency && m.dependency == Unset)
      || (r.error == DuplicateProvider(v) && TwoProviders(ds + {Decl(package, v, slot, m)}, v))
  {
    ghost var t0 := tracker.State();
    r := tracker.Sort(v, m);
    if r.Err? {
      SortThrowExplained(t0, ds, Decl(package, v, slot, m));
    } else {
      SortInstalls(t0, ds, Decl(package, v, slot, m));
    }
  }

  // ---------------------------------------------------------------------------
  // The adders

  /** `add_private_var` / `add_provides_var`: a plain field is added under the
      name its route targets, the first registration winning (the `bool`
      result is dropped, as there). */
  method AddRoutedField(state: StateDescriptor, package: string, v: string, m: Metadata, route: Route,
                        ghost acc: set<Decl>, ghost U: set<Decl>)
    requires state.Valid() && !m.sparse
    requires Decl(package, v, -1, m) in U
    requires (route == ToPrivate <==> m.dependency == Private) && (route == ToProvides <==> m.dependency == Provides)
    requires FieldsFrom(state.metadataMap, state.sparseMetadataMap, acc, U)
    requires Installed(acc + {Decl(package, v, -1, m)}) == Installed(acc) + Target(package, v, route)
    modifies state
    ensures state.Valid()
    ensures state.swarmMetadataMap == old(state.swarmMetadataMap)
    ensures state.swarmValueMetadataMap == old(state.swarmValueMetadataMap)
    ensures state.sparseMetadataMap == old(state.sparseMetadataMap)
    ensures state.metadataMap == match route
      case ToPrivate => PlainAdded(old(state.metadataMap), Qualify(package, v), m)
      case ToProvides => PlainAdded(old(state.metadataMap), v, m)
      case Deferred => old(state.metadataMap)
    ensures FieldsFrom(state.metadataMap, state.sparseMetadataMap, acc + {Decl(package, v, -1, m)}, U)
  {
    ghost var d := Decl(package, v, -1, m);
    ghost var f0, s0 := state.metadataMap, state.sparseMetadataMap;
    match route {
      case ToPrivate =>
        var _ := state.AddField(Qualify(package, v), m);
        PlainStep(f0, s0, acc, U, d);
      case ToProvides =>
        var _ := state.AddField(v, m);
        PlainStep(f0, s0, acc, U, d);
      case Deferred =>
        DeferredStep(f0, s0, acc, U, d);
    }
  }

  /** Every variant of a sparse list is added under `name`, in order: each is
      compared with the list's first variant, and the adds stop at the first
      that is not `SparseEqual` to it. */
  method AddSparseList(state: StateDescriptor, name: string, mvec: seq<Metadata>) returns (r: Outcome)
    requires state.Valid()
    requires |mvec| > 0 && forall k :: 0 <= k < |mvec| ==> mvec[k].sparse
    modifies state
    ensures state.Valid()
    ensures state.swarmMetadataMap == old(state.swarmMetadataMap)
    ensures state.swarmValueMetadataMap == old(state.swarmValueMetadataMap)
    ensures r.Pass? <==>
      forall k :: 0 <= k < |mvec| ==> SparseEqual(Head(Listed(old(state.sparseMetadataMap), name), mvec), mvec[k])
    ensures r.Pass? ==>
      && state.metadataMap == old(state.metadataMap)
      && state.sparseMetadataMap ==
           old(state.sparseMetadataMap)[name := Merged(Listed(old(state.sparseMetadataMap), name), mvec)]
    ensures r.Fail? ==> r.error == SparseMetadataMismatch
  {
    ghost var s0 := state.sparseMetadataMap;
    ghost var L := Listed(s0, name);
    var k := 0;
    while k < |mvec|
      invariant 0 <= k <= |mvec|
      invariant state.Valid()
      invariant state.swarmMetadataMap == old(state.swarmMetadataMap)
      invariant state.swarmValueMetadataMap == old(state.swarmValueMetadataMap)
      invariant state.metadataMap == old(state.metadataMap)
      invariant state.sparseMetadataMap == if k == 0 then s0 else s0[name := Merged(L, mvec[..k])]
      invariant forall j :: 0 <= j < k ==> SparseEqual(Head(L, mvec), mvec[j])
    {
      var added := AddSparseEntry(state, name, mvec, k, s0);
      if added.Err? {
        return Fail(added.error);
      }
      k := k + 1;
    }
    assert mvec[..k] == mvec;
    r := Pass;
  }

  /** `AddField` of the variant `k` of `mvec`, once the first `k` are merged
      into the original lists `s0`: it throws exactly when the variant is not
      `SparseEqual` to the head of the list, and otherwise leaves the
      first `k + 1` merged. */
  method AddSparseEntry(state: StateDescriptor, name: string, mvec: seq<Metadata>, k: int,
                        ghost s0: map<string, seq<Metadata>>)
    returns (r: Result<bool>)
    requires state.Valid() && 0 <= k < |mvec| && mvec[k].sparse
    requires state.sparseMetadataMap == if k == 0 then s0 else s0[name := Merged(Listed(s0, name), mvec[..k])]
    modifies state
    ensures state.Valid()
    ensures state.swarmMetadataMap == old(state.swarmMetadataMap)
    ensures state.swarmValueMetadataMap == old(state.swarmValueMetadataMap)
    ensures state.metadataMap == old(state.metadataMap)
    ensures r.Ok? <==> SparseEqual(Head(Listed(s0, name), mvec), mvec[k])
    ensures r.Ok? ==> state.sparseMetadataMap == s0[name := Merged(Listed(s0, name), mvec[..k + 1])]
    ensures r.Err? ==> r.error == SparseMetadataMismatch
  {
    SparseListStep(state.sparseMetadataMap, s0, name, mvec, k);
    r := state.AddField(name, mvec[k]);
  }

  /** One more variant of `mvec` added to the sparse lists `s`, which hold the
      first `k` of them merged into the original lists `s0`. */
  lemma SparseListStep(s: map<string, seq<Metadata>>, s0: map<string, seq<Metadata>>, name: string,
                       mvec: seq<Metadata>, k: int)
    requires 0 <= k < |mvec|
    requires s == if k == 0 then s0 else s0[name := Merged(Listed(s0, name), mvec[..k])]
    ensures Listed(s, name) == Merged(Listed(s0, name), mvec[..k])
    ensures Listed(s, name) != [] ==> Listed(s, name)[0] == Head(Listed(s0, name), mvec)
    ensures s[name := Appended(Listed(s, name), mvec[k])] == s0[name := Merged(Listed(s0, name), mvec[..k + 1])]
    ensures name in s && Appended(s[name], mvec[k]) == s[name] ==> s == s0[name := Merged(Listed(s0, name), mvec[..k + 1])]
  {
    var L := Listed(s0, name);
    MergedSnoc(L, mvec, k);
    MergedPrefix(L, mvec[..k]);
    if k > 0 {
      assert mvec[..k][0] == mvec[0];
    }
    assert name in s0 ==> s0[name := s0[name]] == s0;
  }

  /** `add_private_sparse` / `add_provides_sparse`: the package's WHOLE sparse
      list for `v` is added under the name the route targets, on every Sort of
      one of its entries. */
  method AddRoutedSparse(state: StateDescriptor, package: string, v: string, mvec: seq<Metadata>, route: Route,
                         ghost k: int, ghost acc: set<Decl>, ghost U: set<Decl>)
    returns (r: Outcome)
    requires state.Valid()
    requires 0 <= k < |mvec| && forall j :: 0 <= j < |mvec| ==> mvec[j].sparse
    requires EntryDecls(package, v, mvec, |mvec|) <= U
    requires (route == ToPrivate <==> mvec[k].dependency == Private)
    requires (route == ToProvides <==> mvec[k].dependency == Provides)
    requires FieldsFrom(state.metadataMap, state.sparseMetadataMap, acc, U)
    requires Installed(acc + {Decl(package, v, k, mvec[k])}) == Installed(acc) + Target(package, v, route)
    modifies state
    ensures state.Valid()
    ensures state.swarmMetadataMap == old(state.swarmMetadataMap)
    ensures state.swarmValueMetadataMap == old(state.swarmValueMetadataMap)
    ensures route == Deferred ==> r == Pass && state.sparseMetadataMap == old(state.sparseMetadataMap)
    ensures r.Pass? ==> state.metadataMap == old(state.metadataMap)
    ensures r.Pass? ==> forall n :: n in Target(package, v, route) ==>
      state.sparseMetadataMap == old(state.sparseMetadataMap)[n := Merged(Listed(old(state.sparseMetadataMap), n), mvec)]
    ensures r.Pass? ==> FieldsFrom(state.metadataMap, state.sparseMetadataMap, acc + {Decl(package, v, k, mvec[k])}, U)
    ensures r.Fail? ==> r.error == SparseMetadataMismatch && SparseClash(U)
  {
    ghost var d := Decl(package, v, k, mvec[k]);
    ghost var f0, s0 := state.metadataMap, state.sparseMetadataMap;
    if route == Deferred {
      assert Target(package, v, route) == {};
      DeferredStep(f0, s0, acc, U, d);
      return Pass;
    }
    var name := if route == ToPrivate then Qualify(package, v) else v;
    assert name == BindName(d) && Target(package, v, route) == {name};
    r := AddListUnder(state, package, v, mvec, name, k, acc, U);
  }

  /** The whole sparse list for `v` added under `name`, the name its entry
      `k` is routed to. */
  method AddListUnder(state: StateDescriptor, package: string, v: string, mvec: seq<Metadata>, name: string,
                      ghost k: int, ghost acc: set<Decl>, ghost U: set<Decl>)
    returns (r: Outcome)
    requires state.Valid()
    requires 0 <= k < |mvec| && forall j :: 0 <= j < |mvec| ==> mvec[j].sparse
    requires EntryDecls(package, v, mvec, |mvec|) <= U
    requires name == BindName(Decl(package, v, k, mvec[k])) && Routes(Decl(package, v, k, mvec[k]), name)
    requires FieldsFrom(state.metadataMap, state.sparseMetadataMap, acc, U)
    requires Installed(acc + {Decl(package, v, k, mvec[k])}) == Installed(acc) + {name}
    modifies state
    ensures state.Valid()
    ensures state.swarmMetadataMap == old(state.swarmMetadataMap)
    ensures state.swarmValueMetadataMap == old(state.swarmValueMetadataMap)
    ensures r.Pass? ==> state.metadataMap == old(state.metadataMap)
    ensures r.Pass? ==>
      state.sparseMetadataMap == old(state.sparseMetadataMap)[name := Merged(Listed(old(state.sparseMetadataMap), name), mvec)]
    ensures r.Pass? ==> FieldsFrom(state.metadataMap, state.sparseMetadataMap, acc + {Decl(package, v, k, mvec[k])}, U)
    ensures r.Fail? ==> r.error == SparseMetadataMismatch && SparseClash(U)
  {
    ghost var f0, s0 := state.metadataMap, state.sparseMetadataMap;
    r := AddSparseList(state, name, mvec);
    RoutedListStep(f0, s0, acc, U, package, v, mvec, k, name, r.Pass?);
  }

  /** Adding the whole list under the name entry `k` is routed to keeps the
      bindings from the declarations when every variant agrees with the
      stored head, and otherwise shows a sparse clash among them. */
  lemma RoutedListStep(f: map<string, Metadata>, s: map<string, seq<Metadata>>, acc: set<Decl>, U: set<Decl>,
                       package: string, v: string, mvec: seq<Metadata>, k: int, name: string, pass: bool)
    requires FieldsFrom(f, s, acc, U)
    requires 0 <= k < |mvec| && forall j :: 0 <= j < |mvec| ==> mvec[j].sparse
    requires EntryDecls(package, v, mvec, |mvec|) <= U
    requires name == BindName(Decl(package, v, k, mvec[k])) && Routes(Decl(package, v, k, mvec[k]), name)
    requires Installed(acc + {Decl(package, v, k, mvec[k])}) == Installed(acc) + {name}
    requires pass <==> forall j :: 0 <= j < |mvec| ==> SparseEqual(Head(Listed(s, name), mvec), mvec[j])
    ensures pass ==> FieldsFrom(f, s[name := Merged(Listed(s, name), mvec)], acc + {Decl(package, v, k, mvec[k])}, U)
    ensures !pass ==> SparseClash(U)
  {
    var d := Decl(package, v, k, mvec[k]);
    EntriesFrom(package, v, mvec, U, name, k);
    if pass {
      assert d in EntryDecls(package, v, mvec, |mvec|);
      SparseStep(f, s, acc, U, d, mvec);
    } else {
      ListClash(f, s, U, name, mvec);
    }
  }

  /** Every entry of a sparse list some package declares for `v` is stored
      under the name its entry `k` is routed to. */
  lemma EntriesFrom(package: string, v: string, mvec: seq<Metadata>, U: set<Decl>, name: string, k: int)
    requires EntryDecls(package, v, mvec, |mvec|) <= U && forall j :: 0 <= j < |mvec| ==> mvec[j].sparse
    requires 0 <= k < |mvec| && Routes(Decl(package, v, k, mvec[k]), name)
    ensures forall j :: 0 <= j < |mvec| ==> EntryFrom(U, name, mvec[j])
  {
    var e := Decl(package, v, k, mvec[k]);
    assert e in EntryDecls(package, v, mvec, |mvec|);
    forall j | 0 <= j < |mvec| ensures EntryFrom(U, name, mvec[j]) {
      var d := Decl(package, v, j, mvec[j]);
      assert d in EntryDecls(package, v, mvec, |mvec|);
      assert StoredUnder(U, d, name) by {
        assert e in U && e.meta.sparse && e.package == d.package && e.name == d.name && Routes(e, name);
      }
    }
  }

  /** Copies every value package `p` declares for `swarm` into the freshly
      registered swarm `swarmName`; none of these additions can throw. */
  method CopyValues(state: StateDescriptor, p: StateDescriptor, swarm: string, swarmName: string)
    requires state.Valid() && state != p
    requires swarmName in state.swarmMetadataMap && state.SwarmValues(swarmName) == map[]
    modifies state
    ensures state.Valid()
    ensures state.metadataMap == old(state.metadataMap) && state.sparseMetadataMap == old(state.sparseMetadataMap)
    ensures state.swarmMetadataMap == old(state.swarmMetadataMap)
    ensures state.SwarmValues(swarmName) == p.SwarmValues(swarm)
    ensures forall w :: w != swarmName ==> state.SwarmValues(w) == old(state.SwarmValues(w))
  {
    var values := p.SwarmValues(swarm);
    var remaining := values.Keys;
    while remaining != {}
      invariant remaining <= values.Keys
      invariant state.Valid()
      invariant state.metadataMap == old(state.metadataMap) && state.sparseMetadataMap == old(state.sparseMetadataMap)
      invariant state.swarmMetadataMap == old(state.swarmMetadataMap)
      invariant state.SwarmValues(swarmName) == map n | n in values && n !in remaining :: values[n]
      invariant forall w :: w != swarmName ==> state.SwarmValues(w) == old(state.SwarmValues(w))
      decreases remaining
    {
      var n :| n in remaining;
      var added := state.AddSwarmValue(n, swarmName, values[n]);
      assert added == Ok(true);
      remaining := remaining - {n};
    }
  }

  /** The `AddSwarm` helper: registers the swarm under `swarmName` and copies
      every value package `p` declares for `swarm`. */
  method CopySwarm(state: StateDescriptor, p: StateDescriptor, swarm: string, swarmName: string, m: Metadata)
    returns (r: Outcome)
    requires state.Valid() && state != p
    modifies state
    ensures state.Valid()
    ensures state.metadataMap == old(state.metadataMap) && state.sparseMetadataMap == old(state.sparseMetadataMap)
    ensures r.Pass? ==>
      && swarmName !in old(state.swarmMetadataMap)
      && state.swarmMetadataMap == old(state.swarmMetadataMap)[swarmName := m]
      && state.SwarmValues(swarmName) == p.SwarmValues(swarm)
      && forall w :: w != swarmName ==>
           ValuesOf(state.swarmValueMetadataMap, w) == ValuesOf(old(state.swarmValueMetadataMap), w)
    ensures r.Fail? ==> r.error == DuplicateSwarm(swarmName) && swarmName in old(state.swarmMetadataMap)
  {
    var added := state.AddSwarm(swarmName, m);
    if added.Err? {
      return Fail(added.error);
    }
    ghost var before := state.swarmValueMetadataMap;
    CopyValues(state, p, swarm, swarmName);
    forall w | w != swarmName
      ensures ValuesOf(state.swarmValueMetadataMap, w) == ValuesOf(old(state.swarmValueMetadataMap), w)
    {
      assert state.SwarmValues(w) == ValuesOf(before, w);
    }
    r := Pass;
  }

  /** `add_private_swarm` / `add_provides_swarm`: the swarm and its values are
      added under the name the route targets. */
  method AddRoutedSwarm(state: StateDescriptor, p: StateDescriptor, v: string, m: Metadata, route: Route,
                        ghost acc: set<Decl>, ghost Us: set<Decl>, ghost ds: seq<PackageData>)
    returns (r: Outcome)
    requires state.Valid() && state != p
    requires Decl(p.packageName, v, -1, m) in Us && Decl(p.packageName, v, -1, m) !in acc
    requires (route == ToPrivate <==> m.dependency == Private) && (route == ToProvides <==> m.dependency == Provides)
    requires DeclaredValues(ds, p.packageName, v) == p.SwarmValues(v)
    requires SwarmsFrom(state.swarmMetadataMap, state.swarmValueMetadataMap, acc, Us, ds)
    requires Installed(acc + {Decl(p.packageName, v, -1, m)}) == Installed(acc) + Target(p.packageName, v, route)
    modifies state
    ensures state.Valid()
    ensures state.metadataMap == old(state.metadataMap) && state.sparseMetadataMap == old(state.sparseMetadataMap)
    ensures route == Deferred ==>
      && r == Pass && state.swarmMetadataMap == old(state.swarmMetadataMap)
      && state.swarmValueMetadataMap == old(state.swarmValueMetadataMap)
    ensures r.Pass? ==> forall n :: n in Target(p.packageName, v, route) ==>
      && state.swarmMetadataMap == old(state.swarmMetadataMap)[n := m]
      && state.SwarmValues(n) == p.SwarmValues(v)
    ensures r.Pass? ==>
      SwarmsFrom(state.swarmMetadataMap, state.swarmValueMetadataMap, acc + {Decl(p.packageName, v, -1, m)}, Us, ds)
    ensures r.Fail? ==> r.error.DuplicateSwarm? && SwarmClash(Us, r.error.name)
  {
    ghost var d := Decl(p.packageName, v, -1, m);
    ghost var sw0, vals0 := state.swarmMetadataMap, state.swarmValueMetadataMap;
    if route == Deferred {
      assert Target(p.packageName, v, route) == {};
      return Pass;
    }
    var name := if route == ToPrivate then Qualify(p.packageName, v) else v;
    assert name == BindName(d) && Target(p.packageName, v, route) == {name};
    r := CopySwarm(state, p, v, name, m);
    if r.Pass? {
      assert forall n :: n in Target(p.packageName, v, route) ==>
        state.swarmMetadataMap == sw0[n := m] && state.SwarmValues(n) == p.SwarmValues(v);
      SwarmStep(sw0, vals0, state.swarmMetadataMap, state.swarmValueMetadataMap, acc, Us, ds, d);
    } else {
      var e := InstalledRouted(acc, name);
      RoutedTwice(Us, e, d, name);
    }
  }

  // ---------------------------------------------------------------------------
  // Phase 1, per package

  /** The Sort of the plain field `v`, followed by the adder its route names. */
  method SortField(tracker: DependencyTracker, state: StateDescriptor, package: string, v: string, m: Metadata,
                   ghost acc: set<Decl>, ghost U: set<Decl>)
    returns (r: Outcome)
    requires tracker.Valid() && state.Valid() && !m.sparse
    requires Decl(package, v, -1, m) !in acc && Decl(package, v, -1, m) in U && Normalised(U)
    requires Tracks(tracker.State(), acc) && FieldsFrom(state.metadataMap, state.sparseMetadataMap, acc, U)
    modifies tracker, state
    ensures tracker.Valid() && state.Valid()
    ensures state.swarmMetadataMap == old(state.swarmMetadataMap)
    ensures state.swarmValueMetadataMap == old(state.swarmValueMetadataMap)
    ensures r.Pass? ==>
      && Tracks(tracker.State(), acc + {Decl(package, v, -1, m)})
      && FieldsFrom(state.metadataMap, state.sparseMetadataMap, acc + {Decl(package, v, -1, m)}, U)
    ensures r.Fail? ==> FieldFailure(r.error, U)
  {
    var route := SortDecl(tracker, package, v, m, -1, acc);
    if route.Err? {
      SortFailure(route.error, acc, Decl(package, v, -1, m), U);
      return Fail(route.error);
    }
    AddRoutedField(state, package, v, m, route.value, acc, U);
    r := Pass;
  }

  /** `SortCollection` over a package's plain fields, each followed by the
      adder its route names. */
  method SortFields(tracker: DependencyTracker, state: StateDescriptor, package: string,
                    fields: map<string, Metadata>, ghost done: set<Decl>, ghost U: set<Decl>)
    returns (r: Outcome)
    requires tracker.Valid() && state.Valid()
    requires forall n :: n in fields ==> !fields[n].sparse
    requires forall d :: d in done ==> d.package != package
    requires MapDecls(package, fields, fields.Keys) <= U && Normalised(U)
    requires Tracks(tracker.State(), done) && FieldsFrom(state.metadataMap, state.sparseMetadataMap, done, U)
    modifies tracker, state
    ensures tracker.Valid() && state.Valid()
    ensures state.swarmMetadataMap == old(state.swarmMetadataMap)
    ensures state.swarmValueMetadataMap == old(state.swarmValueMetadataMap)
    ensures r.Pass? ==>
      && Tracks(tracker.State(), done + MapDecls(package, fields, fields.Keys))
      && FieldsFrom(state.metadataMap, state.sparseMetadataMap, done + MapDecls(package, fields, fields.Keys), U)
    ensures r.Fail? ==> FieldFailure(r.error, U)
  {
    var remaining := fields.Keys;
    ghost var names: set<string> := {};
    ghost var acc := done;
    assert MapDecls(package, fields, names) == {};
    while remaining != {}
      invariant remaining <= fields.Keys && names == fields.Keys - remaining
      invariant acc == done + MapDecls(package, fields, names)
      invariant tracker.Valid() && state.Valid()
      invariant state.swarmMetadataMap == old(state.swarmMetadataMap)
      invariant state.swarmValueMetadataMap == old(state.swarmValueMetadataMap)
      invariant Tracks(tracker.State(), acc)
      invariant FieldsFrom(state.metadataMap, state.sparseMetadataMap, acc, U)
      decreases remaining
    {
      var v :| v in remaining;
      DrainStep(fields.Keys, remaining, v);
      MapDeclsAdd(done, package, fields, names, v);
      r := SortField(tracker, state, package, v, fields[v], acc, U);
      if r.Fail? {
        return;
      }
      acc, names := acc + {Decl(package, v, -1, fields[v])}, names + {v};
      remaining := remaining - {v};
    }
    assert names == fields.Keys;
    r := Pass;
  }

  /** The Sort of entry `k` of the sparse list `mvec` of `n`, followed by the
      sparse adder its route names. */
  method SortEntry(tracker: DependencyTracker, state: StateDescriptor, package: string, n: string,
                   mvec: seq<Metadata>, k: int, ghost acc: set<Decl>, ghost U: set<Decl>)
    returns (r: Outcome)
    requires tracker.Valid() && state.Valid()
    requires 0 <= k < |mvec| && forall j :: 0 <= j < |mvec| ==> mvec[j].sparse
    requires Decl(package, n, k, mvec[k]) !in acc
    requires EntryDecls(package, n, mvec, |mvec|) <= U && Normalised(U)
    requires Tracks(tracker.State(), acc) && FieldsFrom(state.metadataMap, state.sparseMetadataMap, acc, U)
    modifies tracker, state
    ensures tracker.Valid() && state.Valid()
    ensures state.swarmMetadataMap == old(state.swarmMetadataMap)
    ensures state.swarmValueMetadataMap == old(state.swarmValueMetadataMap)
    ensures r.Pass? ==>
      && Tracks(tracker.State(), acc + {Decl(package, n, k, mvec[k])})
      && FieldsFrom(state.metadataMap, state.sparseMetadataMap, acc + {Decl(package, n, k, mvec[k])}, U)
    ensures r.Fail? ==> FieldFailure(r.error, U)
  {
    assert Decl(package, n, k, mvec[k]) in EntryDecls(package, n, mvec, |mvec|);
    var route := SortDecl(tracker, package, n, mvec[k], k, acc);
    if route.Err? {
      SortFailure(route.error, acc, Decl(package, n, k, mvec[k]), U);
      return Fail(route.error);
    }
    r := AddRoutedSparse(state, package, n, mvec, route.value, k, acc, U);
  }

  /** Each entry of one sparse list sorted in turn, each Sort followed by the
      sparse adder its route names. */
  method SortEntries(tracker: DependencyTracker, state: StateDescriptor, package: string, n: string,
                     mvec: seq<Metadata>, ghost before: set<Decl>, ghost U: set<Decl>)
    returns (r: Outcome)
    requires tracker.Valid() && state.Valid()
    requires |mvec| > 0 && forall k :: 0 <= k < |mvec| ==> mvec[k].sparse
    requires forall d :: d in EntryDecls(package, n, mvec, |mvec|) ==> d !in before
    requires EntryDecls(package, n, mvec, |mvec|) <= U && Normalised(U)
    requires Tracks(tracker.State(), before) && FieldsFrom(state.metadataMap, state.sparseMetadataMap, before, U)
    modifies tracker, state
    ensures tracker.Valid() && state.Valid()
    ensures state.swarmMetadataMap == old(state.swarmMetadataMap)
    ensures state.swarmValueMetadataMap == old(state.swarmValueMetadataMap)
    ensures r.Pass? ==>
      && Tracks(tracker.State(), before + EntryDecls(package, n, mvec, |mvec|))
      && FieldsFrom(state.metadataMap, state.sparseMetadataMap, before + EntryDecls(package, n, mvec, |mvec|), U)
    ensures r.Fail? ==> FieldFailure(r.error, U)
  {
    var k := 0;
    ghost var acc := before;
    assert EntryDecls(package, n, mvec, 0) == {};
    while k < |mvec|
      invariant 0 <= k <= |mvec|
      invariant acc == before + EntryDecls(package, n, mvec, k)
      invariant tracker.Valid() && state.Valid()
      invariant state.swarmMetadataMap == old(state.swarmMetadataMap)
      invariant state.swarmValueMetadataMap == old(state.swarmValueMetadataMap)
      invariant Tracks(tracker.State(), acc)
      invariant FieldsFrom(state.metadataMap, state.sparseMetadataMap, acc, U)
    {
      EntryDeclsAdd(package, n, mvec, k);
      r := SortEntry(tracker, state, package, n, mvec, k, acc, U);
      if r.Fail? {
        return;
      }
      acc := acc + {Decl(package, n, k, mvec[k])};
      k := k + 1;
    }
    r := Pass;
  }

  /** The sparse fields of a package: every entry of every list is sorted
      separately, in the field tracker. */
  method SortSparse(tracker: DependencyTracker, state: StateDescriptor, package: string,
                    sparse: map<string, seq<Metadata>>, ghost done: set<Decl>, ghost U: set<Decl>)
    returns (r: Outcome)
    requires tracker.Valid() && state.Valid()
    requires forall n :: n in sparse ==> |sparse[n]| > 0
    requires forall n, k :: n in sparse && 0 <= k < |sparse[n]| ==> sparse[n][k].sparse
    requires forall d :: d in done ==> d.package != package || d.slot < 0
    requires SparseDeclsOf(package, sparse, sparse.Keys) <= U && Normalised(U)
    requires Tracks(tracker.State(), done) && FieldsFrom(state.metadataMap, state.sparseMetadataMap, done, U)
    modifies tracker, state
    ensures tracker.Valid() && state.Valid()
    ensures state.swarmMetadataMap == old(state.swarmMetadataMap)
    ensures state.swarmValueMetadataMap == old(state.swarmValueMetadataMap)
    ensures r.Pass? ==>
      && Tracks(tracker.State(), done + SparseDeclsOf(package, sparse, sparse.Keys))
      && FieldsFrom(state.metadataMap, state.sparseMetadataMap, done + SparseDeclsOf(package, sparse, sparse.Keys), U)
    ensures r.Fail? ==> FieldFailure(r.error, U)
  {
    var remaining := sparse.Keys;
    ghost var names: set<string> := {};
    ghost var acc := done;
    assert SparseDeclsOf(package, sparse, names) == {};
    while remaining != {}
      invariant remaining <= sparse.Keys && names == sparse.Keys - remaining
      invariant acc == done + SparseDeclsOf(package, sparse, names)
      invariant tracker.Valid() && state.Valid()
      invariant state.swarmMetadataMap == old(state.swarmMetadataMap)
      invariant state.swarmValueMetadataMap == old(state.swarmValueMetadataMap)
      invariant Tracks(tracker.State(), acc)
      invariant FieldsFrom(state.metadataMap, state.sparseMetadataMap, acc, U)
      decreases remaining
    {
      var n :| n in remaining;
      DrainStep(sparse.Keys, remaining, n);
      r := SortSparseName(tracker, state, package, sparse, n, done, names, acc, U);
      if r.Fail? {
        return;
      }
      acc, names := acc + EntryDecls(package, n, sparse[n], |sparse[n]|), names + {n};
      remaining := remaining - {n};
    }
    assert names == sparse.Keys;
    r := Pass;
  }

  /** The sparse field `n` of a package, once the fields `names` are sorted:
      every entry of its list is sorted, in the field tracker. */
  method SortSparseName(tracker: DependencyTracker, state: StateDescriptor, package: string,
                        sparse: map<string, seq<Metadata>>, n: string, ghost done: set<Decl>, ghost names: set<string>,
                        ghost acc: set<Decl>, ghost U: set<Decl>)
    returns (r: Outcome)
    requires tracker.Valid() && state.Valid()
    requires n in sparse && n !in names && |sparse[n]| > 0
    requires forall k :: 0 <= k < |sparse[n]| ==> sparse[n][k].sparse
    requires forall d :: d in done ==> d.package != package || d.slot < 0
    requires SparseDeclsOf(package, sparse, sparse.Keys) <= U && Normalised(U)
    requires acc == done + SparseDeclsOf(package, sparse, names)
    requires Tracks(tracker.State(), acc) && FieldsFrom(state.metadataMap, state.sparseMetadataMap, acc, U)
    modifies tracker, state
    ensures acc + EntryDecls(package, n, sparse[n], |sparse[n]|) == done + SparseDeclsOf(package, sparse, names + {n})
    ensures tracker.Valid() && state.Valid()
    ensures state.swarmMetadataMap == old(state.swarmMetadataMap)
    ensures state.swarmValueMetadataMap == old(state.swarmValueMetadataMap)
    ensures r.Pass? ==>
      && Tracks(tracker.State(), acc + EntryDecls(package, n, sparse[n], |sparse[n]|))
      && FieldsFrom(state.metadataMap, state.sparseMetadataMap, acc + EntryDecls(package, n, sparse[n], |sparse[n]|), U)
    ensures r.Fail? ==> FieldFailure(r.error, U)
  {
    EntriesFresh(done, package, sparse, names, n);
    SparseDeclsAdd(package, sparse, names, n);
    SparseDeclsMono(package, sparse, names + {n});
    r := SortEntries(tracker, state, package, n, sparse[n], acc, U);
  }

  /** The Sort of one swarm of `p` in the swarm tracker, followed by the swarm
      adder its route names. */
  method SortSwarm(tracker: DependencyTracker, state: StateDescriptor, p: StateDescriptor, v: string,
                   m: Metadata, ghost acc: set<Decl>, ghost Us: set<Decl>, ghost ds: seq<PackageData>)
    returns (r: Outcome)
    requires tracker.Valid() && state.Valid() && state != p
    requires Decl(p.packageName, v, -1, m) !in acc && Decl(p.packageName, v, -1, m) in Us && Normalised(Us)
    requires DeclaredValues(ds, p.packageName, v) == p.SwarmValues(v)
    requires Tracks(tracker.State(), acc)
    requires SwarmsFrom(state.swarmMetadataMap, state.swarmValueMetadataMap, acc, Us, ds)
    modifies tracker, state
    ensures tracker.Valid() && state.Valid()
    ensures state.metadataMap == old(state.metadataMap) && state.sparseMetadataMap == old(state.sparseMetadataMap)
    ensures r.Pass? ==>
      && Tracks(tracker.State(), acc + {Decl(p.packageName, v, -1, m)})
      && SwarmsFrom(state.swarmMetadataMap, state.swarmValueMetadataMap, acc + {Decl(p.packageName, v, -1, m)}, Us, ds)
    ensures r.Fail? ==> SwarmFailure(r.error, Us)
  {
    var route := SortDecl(tracker, p.packageName, v, m, -1, acc);
    if route.Err? {
      SortFailure(route.error, acc, Decl(p.packageName, v, -1, m), Us);
      return Fail(route.error);
    }
    r := AddRoutedSwarm(state, p, v, m, route.value, acc, Us, ds);
  }

  /** `SortCollection` over a package's swarms, in the swarm tracker. */
  method SortSwarms(tracker: DependencyTracker, state: StateDescriptor, p: StateDescriptor, ghost done: set<Decl>,
                    ghost Us: set<Decl>, ghost ds: seq<PackageData>)
    returns (r: Outcome)
    requires tracker.Valid() && state.Valid() && state != p
    requires forall d :: d in done ==> d.package != p.packageName
    requires SwarmDecls(p.Data()) <= Us && Normalised(Us)
    requires forall v :: DeclaredValues(ds, p.packageName, v) == p.SwarmValues(v)
    requires Tracks(tracker.State(), done)
    requires SwarmsFrom(state.swarmMetadataMap, state.swarmValueMetadataMap, done, Us, ds)
    modifies tracker, state
    ensures tracker.Valid() && state.Valid()
    ensures state.metadataMap == old(state.metadataMap) && state.sparseMetadataMap == old(state.sparseMetadataMap)
    ensures r.Pass? ==>
      && Tracks(tracker.State(), done + SwarmDecls(p.Data()))
      && SwarmsFrom(state.swarmMetadataMap, state.swarmValueMetadataMap, done + SwarmDecls(p.Data()), Us, ds)
    ensures r.Fail? ==> SwarmFailure(r.error, Us)
  {
    var swarms := p.swarmMetadataMap;
    var remaining := swarms.Keys;
    ghost var names: set<string> := {};
    ghost var acc := done;
    assert MapDecls(p.packageName, swarms, names) == {};
    while remaining != {}
      invariant remaining <= swarms.Keys && names == swarms.Keys - remaining
      invariant acc == done + MapDecls(p.packageName, swarms, names)
      invariant tracker.Valid() && state.Valid()
      invariant state.metadataMap == old(state.metadataMap) && state.sparseMetadataMap == old(state.sparseMetadataMap)
      invariant Tracks(tracker.State(), acc)
      invariant SwarmsFrom(state.swarmMetadataMap, state.swarmValueMetadataMap, acc, Us, ds)
      decreases remaining
    {
      var v :| v in remaining;
      DrainStep(swarms.Keys, remaining, v);
      MapDeclsAdd(done, p.packageName, swarms, names, v);
      assert Decl(p.packageName, v, -1, swarms[v]) in Us;
      r := SortSwarm(tracker, state, p, v, swarms[v], acc, Us, ds);
      if r.Fail? {
        return;
      }
      acc, names := acc + {Decl(p.packageName, v, -1, swarms[v])}, names + {v};
      remaining := remaining - {v};
    }
    assert names == swarms.Keys;
    r := Pass;
  }

  /** Phase 1 for the fields of one (normalised) package: its plain fields,
      then its sparse fields, in the field tracker. */
  method SortFieldDecls(vt: DependencyTracker, state: StateDescriptor, p: StateDescriptor, ghost done: set<Decl>,
                        ghost U: set<Decl>)
    returns (r: Outcome)
    requires vt.Valid() && state.Valid() && p.Valid() && state != p
    requires forall d :: d in done ==> d.package != p.packageName
    requires PlainDecls(p.Data()) + SparseDecls(p.Data()) <= U && Normalised(U)
    requires Tracks(vt.State(), done) && FieldsFrom(state.metadataMap, state.sparseMetadataMap, done, U)
    modifies vt, state
    ensures vt.Valid() && state.Valid()
    ensures state.swarmMetadataMap == old(state.swarmMetadataMap)
    ensures state.swarmValueMetadataMap == old(state.swarmValueMetadataMap)
    ensures r.Pass? ==>
      && Tracks(vt.State(), done + PlainDecls(p.Data()) + SparseDecls(p.Data()))
      && FieldsFrom(state.metadataMap, state.sparseMetadataMap, done + PlainDecls(p.Data()) + SparseDecls(p.Data()), U)
    ensures r.Fail? ==> FieldFailure(r.error, U)
  {
    r := SortFields(vt, state, p.packageName, p.metadataMap, done, U);
    if r.Pass? {
      r := SortSparse(vt, state, p.packageName, p.sparseMetadataMap, done + PlainDecls(p.Data()), U);
    }
  }

  /** Phase 1 for one (normalised) package: sort its plain fields, its sparse
      fields and its swarms. */
  method SortPackage(vt: DependencyTracker, st: DependencyTracker, state: StateDescriptor, p: StateDescriptor,
                     ghost fdone: set<Decl>, ghost sdone: set<Decl>, ghost U: set<Decl>, ghost Us: set<Decl>,
                     ghost ds: seq<PackageData>)
    returns (r: Outcome)
    requires vt.Valid() && st.Valid() && state.Valid() && p.Valid()
    requires vt != st && state != p
    requires forall d :: d in fdone ==> d.package != p.packageName
    requires forall d :: d in sdone ==> d.package != p.packageName
    requires PlainDecls(p.Data()) + SparseDecls(p.Data()) <= U && Normalised(U)
    requires SwarmDecls(p.Data()) <= Us && Normalised(Us)
    requires forall v :: DeclaredValues(ds, p.packageName, v) == p.SwarmValues(v)
    requires Tracks(vt.State(), fdone) && FieldsFrom(state.metadataMap, state.sparseMetadataMap, fdone, U)
    requires Tracks(st.State(), sdone)
    requires SwarmsFrom(state.swarmMetadataMap, state.swarmValueMetadataMap, sdone, Us, ds)
    modifies vt, st, state
    ensures vt.Valid() && st.Valid() && state.Valid()
    ensures r.Pass? ==>
      && Tracks(vt.State(), fdone + PlainDecls(p.Data()) + SparseDecls(p.Data()))
      && FieldsFrom(state.metadataMap, state.sparseMetadataMap, fdone + PlainDecls(p.Data()) + SparseDecls(p.Data()), U)
      && Tracks(st.State(), sdone + SwarmDecls(p.Data()))
      && SwarmsFrom(state.swarmMetadataMap, state.swarmValueMetadataMap, sdone + SwarmDecls(p.Data()), Us, ds)
    ensures r.Fail? ==> FieldFailure(r.error, U) || SwarmFailure(r.error, Us)
  {
    r := SortFieldDecls(vt, state, p, fdone, U);
    if r.Pass? {
      ghost var fields, sparse, vs := state.metadataMap, state.sparseMetadataMap, vt.State();
      ghost var F := fdone + PlainDecls(p.Data()) + SparseDecls(p.Data());
      assert Tracks(vs, F) && FieldsFrom(fields, sparse, F, U);
      r := SortSwarms(st, state, p, sdone, Us, ds);
      assert vt.State() == vs && state.metadataMap == fields && state.sparseMetadataMap == sparse;
    }
  }

  // ---------------------------------------------------------------------------
  // Phase 1 over every package

  /** Packages are keyed by their labels: no label occurs twice. */
  predicate DistinctLabels(packages: seq<StateDescriptor>)
  {
    forall i, j :: 0 <= i < j < |packages| ==> packages[i].packageName != packages[j].packageName
  }

  /** The same, for package values. */
  ghost predicate DistinctNames(ds: seq<PackageData>)
  {
    forall i, j :: 0 <= i < j < |ds| ==> ds[i].packageName != ds[j].packageName
  }

  /** Under distinct labels, the values declared under a package's label are
      that package's own. */
  lemma {:induction false} DeclaredValuesAt(ds: seq<PackageData>, i: int, swarm: string)
    requires DistinctNames(ds) && 0 <= i < |ds|
    ensures DeclaredValues(ds, ds[i].packageName, swarm) == ValuesOf(ds[i].swarmValues, swarm)
  {
    if i > 0 {
      assert ds[0].packageName != ds[i].packageName;
      assert ds[1..][i - 1] == ds[i];
      assert DistinctNames(ds[1..]) by {
        forall a, b | 0 <= a < b < |ds| - 1 ensures ds[1..][a].packageName != ds[1..][b].packageName {
          assert ds[1..][a] == ds[a + 1] && ds[1..][b] == ds[b + 1];
        }
      }
      DeclaredValuesAt(ds[1..], i - 1, swarm);
    }
  }

  /** Packages with no unset kind give normalised declaration sets. */
  lemma {:induction false} NormalisedAll(ds: seq<PackageData>)
    requires forall j :: 0 <= j < |ds| ==> AllSet(ds[j])
    ensures Normalised(AllFieldDecls(ds)) && Normalised(AllSwarmDecls(ds))
  {
    if ds != [] {
      NormalisedAll(ds[..|ds| - 1]);
      assert AllSet(ds[|ds| - 1]);
    }
  }

  /** A package name no package of `ds` carries is carried by none of their declarations. */
  lemma {:induction false} DeclsFrom(ds: seq<PackageData>, name: string)
    requires forall j :: 0 <= j < |ds| ==> ds[j].packageName != name
    ensures forall d :: d in AllFieldDecls(ds) ==> d.package != name
    ensures forall d :: d in AllSwarmDecls(ds) ==> d.package != name
  {
    if ds != [] {
      DeclsFrom(ds[..|ds| - 1], name);
    }
  }

  /** The declarations of a prefix of the packages are among those of all of them. */
  lemma {:induction false} DeclsPrefix(ds: seq<PackageData>, k: nat)
    requires k <= |ds|
    ensures AllFieldDecls(ds[..k]) <= AllFieldDecls(ds)
    ensures AllSwarmDecls(ds[..k]) <= AllSwarmDecls(ds)
  {
    if k < |ds| {
      DeclsPrefix(ds[..|ds| - 1], k);
      assert ds[..|ds| - 1][..k] == ds[..k];
      assert AllFieldDecls(ds[..|ds| - 1]) <= AllFieldDecls(ds);
      assert AllSwarmDecls(ds[..|ds| - 1]) <= AllSwarmDecls(ds);
    } else {
      assert ds[..k] == ds;
    }
  }

  lemma DeclsSnoc(ds: seq<PackageData>, d: PackageData)
    ensures AllFieldDecls(ds + [d]) == AllFieldDecls(ds) + PlainDecls(d) + SparseDecls(d)
    ensures AllSwarmDecls(ds + [d]) == AllSwarmDecls(ds) + SwarmDecls(d)
  {
    assert (ds + [d])[..|ds|] == ds;
  }

  /** `decls` are the packages `pre` normalised. The fact is only drawn on
      where a package's normalised form is computed. */
  ghost predicate ValidatedFrom(pre: seq<PackageData>, decls: seq<PackageData>)
  {
    && |pre| == |decls|
    && forall j {:trigger ValidatedData(pre[j])} :: 0 <= j < |pre| ==> decls[j] == ValidatedData(pre[j])
  }

  /** The trackers and the resolved state after phase 1 has sorted the
      packages `post`, the first of the packages `decls`: each tracker
      summarises the declarations sorted, and the bindings are those phase 1
      makes for them, each coming from the declarations of `decls`. */
  ghost predicate Sorted(vt: DependencyTracker, st: DependencyTracker, state: StateDescriptor,
                         post: seq<PackageData>, decls: seq<PackageData>)
    reads vt, st, state
  {
    SortedData(vt.State(), st.State(), state.Data(), post, decls)
  }

  /** The facts of `Sorted`, on the trackers' and the state's contents. */
  ghost predicate SortedData(vs: Tracker, ss: Tracker, data: PackageData, post: seq<PackageData>, decls: seq<PackageData>)
  {
    && Tracks(vs, AllFieldDecls(post))
    && FieldsFrom(data.fields, data.sparse, AllFieldDecls(post), AllFieldDecls(decls))
    && Tracks(ss, AllSwarmDecls(post))
    && SwarmsFrom(data.swarms, data.swarmValues, AllSwarmDecls(post), AllSwarmDecls(decls), decls)
  }

  /** The packages as phase 1 leaves them before package `i`: the first `i`
      normalised, the others as they were. */
  ghost predicate NormalisedBefore(packages: seq<StateDescriptor>, i: int, pre: seq<PackageData>, decls: seq<PackageData>)
    reads set p | p in packages
  {
    && |pre| == |packages| == |decls|
    && forall j :: 0 <= j < |packages| ==> packages[j].Data() == if j < i then decls[j] else pre[j]
  }

  /** `ValidateMetadata` on package `i`, the start of its turn in phase 1. */
  method NormaliseNext(packages: seq<StateDescriptor>, i: nat, ghost pre: seq<PackageData>, ghost decls: seq<PackageData>)
    requires DistinctLabels(packages) && i < |packages|
    requires NormalisedBefore(packages, i, pre, decls) && ValidatedFrom(pre, decls) && WellFormed(pre[i])
    modifies packages[i]
    ensures NormalisedBefore(packages, i + 1, pre, decls)
    ensures packages[i].Valid()
    ensures forall j :: 0 <= j < i ==> decls[j].packageName != packages[i].packageName
  {
    var p := packages[i];
    assert forall j :: 0 <= j < |packages| && j != i ==> packages[j] != p;
    p.ValidateMetadata();
  }

  /** Taking one more element of a sequence appends it. */
  lemma TakeOneMore<T>(s: seq<T>, i: nat)
    requires i < |s|
    ensures s[..i + 1] == s[..i] + [s[i]]
  {
  }

  /** The turn of package `i` in phase 1: none of the packages before it
      carries its label, its declarations are among all of them and extend
      those before it, and the values declared under its label are its own. */
  lemma PackageTurn(decls: seq<PackageData>, i: nat)
    requires i < |decls| && DistinctNames(decls)
    ensures forall d :: d in AllFieldDecls(decls[..i]) ==> d.package != decls[i].packageName
    ensures forall d :: d in AllSwarmDecls(decls[..i]) ==> d.package != decls[i].packageName
    ensures PlainDecls(decls[i]) + SparseDecls(decls[i]) <= AllFieldDecls(decls)
    ensures SwarmDecls(decls[i]) <= AllSwarmDecls(decls)
    ensures AllFieldDecls(decls[..i + 1]) == AllFieldDecls(decls[..i]) + PlainDecls(decls[i]) + SparseDecls(decls[i])
    ensures AllSwarmDecls(decls[..i + 1]) == AllSwarmDecls(decls[..i]) + SwarmDecls(decls[i])
    ensures forall v :: DeclaredValues(decls, decls[i].packageName, v) == ValuesOf(decls[i].swarmValues, v)
  {
    TakeOneMore(decls, i);
    DeclsFrom(decls[..i], decls[i].packageName);
    DeclsSnoc(decls[..i], decls[i]);
    DeclsPrefix(decls, i + 1);
    forall v ensures DeclaredValues(decls, decls[i].packageName, v) == ValuesOf(decls[i].swarmValues, v) {
      DeclaredValuesAt(decls, i, v);
    }
  }

  /** The first `i` of the normalised declarations `decls` have been sorted
      into the trackers and the resolved state. */
  ghost predicate SortedThrough(vt: DependencyTracker, st: DependencyTracker, state: StateDescriptor,
                                decls: seq<PackageData>, i: int)
    reads vt, st, state
  {
    SortedThroughState(vt, st, state, decls, i)
  }

  /** The facts of `SortedThrough`, spelled out. `SortedThrough` keeps them
      behind one call, so that a change to a package, which none of them
      reads, leaves them as one fact. */
  ghost predicate SortedThroughState(vt: DependencyTracker, st: DependencyTracker, state: StateDescriptor,
                                     decls: seq<PackageData>, i: int)
    reads vt, st, state
  {
    && 0 <= i <= |decls|
    && DistinctNames(decls) && Normalised(AllFieldDecls(decls)) && Normalised(AllSwarmDecls(decls))
    && vt.Valid() && st.Valid() && state.Valid() && vt != st
    && Sorted(vt, st, state, decls[..i], decls)
  }

  /** Phase 1 on the normalised package `p`, the `i`-th, once the packages
      before it have been sorted. */
  method SortNext(vt: DependencyTracker, st: DependencyTracker, state: StateDescriptor, p: StateDescriptor,
                  ghost decls: seq<PackageData>, ghost i: nat)
    returns (r: Outcome)
    requires SortedThrough(vt, st, state, decls, i)
    requires i < |decls| && decls[i] == p.Data() && p.Valid() && state != p
    modifies vt, st, state
    ensures vt.Valid() && st.Valid() && state.Valid()
    ensures r.Pass? ==> Sorted(vt, st, state, decls[..i + 1], decls)
    ensures r.Fail? ==> FieldFailure(r.error, AllFieldDecls(decls)) || SwarmFailure(r.error, AllSwarmDecls(decls))
  {
    PackageTurn(decls, i);
    r := SortPackage(vt, st, state, p, AllFieldDecls(decls[..i]), AllSwarmDecls(decls[..i]),
                     AllFieldDecls(decls), AllSwarmDecls(decls), decls);
  }

  /** Phase 1 is through the first `i` packages: those are normalised in
      place, and the trackers and the resolved state hold what sorting them
      installs. */
  ghost predicate Phase1(packages: seq<StateDescriptor>, i: int, vt: DependencyTracker, st: DependencyTracker,
                         state: StateDescriptor, pre: seq<PackageData>, decls: seq<PackageData>)
    reads vt, st, state, set p | p in packages
  {
    Phase1State(packages, i, vt, st, state, pre, decls)
  }

  /** The facts of `Phase1`, spelled out. `Phase1` keeps them behind one
      call, so that phase 1's loop carries them as a single invariant. */
  ghost predicate Phase1State(packages: seq<StateDescriptor>, i: int, vt: DependencyTracker, st: DependencyTracker,
                              state: StateDescriptor, pre: seq<PackageData>, decls: seq<PackageData>)
    reads vt, st, state, set p | p in packages
  {
    && 0 <= i <= |packages|
    && NormalisedBefore(packages, i, pre, decls)
    && SortedThrough(vt, st, state, decls, i)
  }

  /** One turn of phase 1's loop: `ValidateMetadata` on package `i`, then its
      fields, sparse fields and swarms sorted. */
  method ValidateAndSort(packages: seq<StateDescriptor>, i: nat, vt: DependencyTracker, st: DependencyTracker,
              state: StateDescriptor, ghost pre: seq<PackageData>, ghost decls: seq<PackageData>)
    returns (r: Outcome)
    requires DistinctLabels(packages) && i < |packages|
    requires vt != st && state !in packages
    requires Phase1(packages, i, vt, st, state, pre, decls)
    requires ValidatedFrom(pre, decls) && WellFormed(pre[i])
    requires DistinctNames(decls) && Normalised(AllFieldDecls(decls)) && Normalised(AllSwarmDecls(decls))
    modifies vt, st, state, packages[i]
    ensures r.Pass? ==> Phase1(packages, i + 1, vt, st, state, pre, decls)
    ensures r.Fail? ==> NormalisedBefore(packages, i + 1, pre, decls)
    ensures r.Fail? ==> FieldFailure(r.error, AllFieldDecls(decls)) || SwarmFailure(r.error, AllSwarmDecls(decls))
  {
    NormaliseNext(packages, i, pre, decls);
    r := SortTurn(packages, i, vt, st, state, pre, decls);
  }

  /** The rest of a turn of phase 1, once package `i` is normalised: its
      fields, sparse fields and swarms sorted, no package changed. */
  method SortTurn(packages: seq<StateDescriptor>, i: nat, vt: DependencyTracker, st: DependencyTracker,
                  state: StateDescriptor, ghost pre: seq<PackageData>, ghost decls: seq<PackageData>)
    returns (r: Outcome)
    requires i < |packages| && state !in packages
    requires NormalisedBefore(packages, i + 1, pre, decls) && packages[i].Valid()
    requires SortedThrough(vt, st, state, decls, i)
    modifies vt, st, state
    ensures r.Pass? ==> Phase1(packages, i + 1, vt, st, state, pre, decls)
    ensures r.Fail? ==> NormalisedBefore(packages, i + 1, pre, decls)
    ensures r.Fail? ==> FieldFailure(r.error, AllFieldDecls(decls)) || SwarmFailure(r.error, AllSwarmDecls(decls))
  {
    assert state != packages[i];
    label Sorting:
    r := SortNext(vt, st, state, packages[i], decls, i);
    forall j | 0 <= j < |packages| ensures packages[j].Data() == old@Sorting(packages[j].Data()) {
      assert packages[j] != state;
    }
    if r.Pass? {
      Phase1Step(packages, i, vt, st, state, pre, decls);
    }
  }

  /** A turn of phase 1 that sorted package `i` leaves phase 1 through it. */
  lemma Phase1Step(packages: seq<StateDescriptor>, i: nat, vt: DependencyTracker, st: DependencyTracker,
                   state: StateDescriptor, pre: seq<PackageData>, decls: seq<PackageData>)
    requires i < |packages| && NormalisedBefore(packages, i + 1, pre, decls)
    requires DistinctNames(decls) && Normalised(AllFieldDecls(decls)) && Normalised(AllSwarmDecls(decls))
    requires vt.Valid() && st.Valid() && state.Valid() && vt != st
    requires Sorted(vt, st, state, decls[..i + 1], decls)
    ensures Phase1(packages, i + 1, vt, st, state, pre, decls)
  {
  }

  /** The declarations of a state nothing has been added to yet. */
  function EmptyData(name: string): PackageData
  {
    PackageData(name, map[], map[], map[], map[])
  }

  /** Empty trackers and an empty state are where phase 1 starts. */
  lemma EmptySorted(vt: DependencyTracker, st: DependencyTracker, state: StateDescriptor, decls: seq<PackageData>)
    requires vt.State() == Empty && st.State() == Empty && state.Data() == EmptyData(state.packageName)
    ensures vt.Valid() && st.Valid() && state.Valid()
    ensures Sorted(vt, st, state, [], decls)
  {
    assert Installed({}) == {};
  }

  lemma SortedAllDone(vt: DependencyTracker, st: DependencyTracker, state: StateDescriptor, decls: seq<PackageData>, i: int)
    requires i == |decls| && Sorted(vt, st, state, decls[..i], decls)
    ensures Sorted(vt, st, state, decls, decls)
  {
    assert decls[..i] == decls;
  }

  /** The declarations of packages with distinct labels, each well formed,
      have distinct labels and are well formed. */
  lemma SnapshotLabels(packages: seq<StateDescriptor>, pre: seq<PackageData>)
    requires DistinctLabels(packages)
    requires forall i :: 0 <= i < |packages| ==> packages[i].Valid()
    requires |pre| == |packages| && forall j :: 0 <= j < |packages| ==> pre[j] == packages[j].Data()
    ensures DistinctNames(pre)
    ensures forall j :: 0 <= j < |pre| ==> WellFormed(pre[j])
  {
    forall a, b | 0 <= a < b < |pre| ensures pre[a].packageName != pre[b].packageName {
      assert pre[a].packageName == packages[a].packageName && pre[b].packageName == packages[b].packageName;
    }
  }

  /** The packages `pre` normalised: their labels stay distinct, and no
      declaration among them has an unset kind. */
  lemma Phase1Start(pre: seq<PackageData>) returns (decls: seq<PackageData>)
    requires DistinctNames(pre)
    ensures ValidatedFrom(pre, decls) && DistinctNames(decls)
    ensures Normalised(AllFieldDecls(decls)) && Normalised(AllSwarmDecls(decls))
  {
    decls := seq(|pre|, j requires 0 <= j < |pre| => ValidatedData(pre[j]));
    forall j | 0 <= j < |pre| ensures AllSet(decls[j]) {
      ValidatedDataProperties(pre[j]);
    }
    NormalisedAll(decls);
    assert DistinctNames(decls) by {
      forall a, b | 0 <= a < b < |decls| ensures decls[a].packageName != decls[b].packageName {
        assert decls[a].packageName == pre[a].packageName && decls[b].packageName == pre[b].packageName;
      }
    }
  }

  /** Phase 1: every package in turn is normalised in place and sorted, from
      empty trackers and an empty resolved state. `decls` are the packages'
      declarations once normalised. On success every package holds them and
      phase 1 has sorted all of them; a throw is a second provider, a sparse
      clash or a swarm clash among them. */
  method SortAll(packages: seq<StateDescriptor>, vt: DependencyTracker, st: DependencyTracker, state: StateDescriptor)
    returns (r: Outcome, ghost decls: seq<PackageData>)
    requires DistinctLabels(packages)
    requires forall i :: 0 <= i < |packages| ==> packages[i].Valid()
    requires vt != st && state !in packages
    requires vt.State() == Empty && st.State() == Empty && state.Data() == EmptyData(state.packageName)
    modifies vt, st, state, set p | p in packages
    ensures ValidatedFrom(old(Snapshot(packages)), decls)
    ensures DistinctNames(decls)
    ensures r.Pass? ==> vt.Valid() && st.Valid() && state.Valid()
    ensures r.Pass? ==> forall j :: 0 <= j < |packages| ==> packages[j].Data() == decls[j]
    ensures r.Pass? ==> Sorted(vt, st, state, decls, decls)
    ensures r.Fail? ==> exists k :: 0 < k <= |packages| && NormalisedBefore(packages, k, old(Snapshot(packages)), decls)
    ensures r.Fail? ==> FieldFailure(r.error, AllFieldDecls(decls)) || SwarmFailure(r.error, AllSwarmDecls(decls))
  {
    ghost var pre := Snapshot(packages);
    SnapshotLabels(packages, pre);
    decls := Phase1Start(pre);
    EmptySorted(vt, st, state, decls);
    assert decls[..0] == [];
    var i := 0;
    while i < |packages|
      invariant Phase1(packages, i, vt, st, state, pre, decls)
    {
      r := ValidateAndSort(packages, i, vt, st, state, pre, decls);
      if r.Fail? {
        assert 0 < i + 1 <= |packages| && NormalisedBefore(packages, i + 1, pre, decls);
        return;
      }
      i := i + 1;
    }
    SortedAllDone(vt, st, state, decls, i);
    r := Pass;
  }
}
