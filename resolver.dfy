/** Phases 2 and 3 of `ResolvePackages` and the function itself: after every
    package has been sorted, every required name must be provided, and every
    overridable name that nobody provides is installed from its candidates. */
module Resolver {
  import opened Meta
  import opened Errors
  import opened DependencyTracking
  import opened StateDescriptors
  import opened Resolution

  /** The names of a list of (name, metadata) installs. */
  ghost function InstallNames(installs: seq<(string, Metadata)>): set<string>
  {
    set x | x in installs :: x.0
  }

  /** Adding one more install adds its name. */
  lemma InstallNamesSnoc(installs: seq<(string, Metadata)>, k: nat)
    requires k < |installs|
    ensures InstallNames(installs[..k + 1]) == InstallNames(installs[..k]) + {installs[k].0}
  {
    assert installs[..k + 1] == installs[..k] + [installs[k]];
  }

  /** The install `(n, m)` is the metadata of an overridable declaration of
      `U` named `n`, a name no declaration of `U` provides. */
  ghost predicate InstallFrom(U: set<Decl>, n: string, m: Metadata)
  {
    exists d :: d in U && Overrides(d, n, U) && d.meta == m
  }

  /** Every install comes from an overridable declaration of `U`. */
  ghost predicate InstallsFrom(installs: seq<(string, Metadata)>, U: set<Decl>)
  {
    forall j :: 0 <= j < |installs| ==> InstallFrom(U, installs[j].0, installs[j].1)
  }

  /** The installs `CheckOverridable` makes over a tracker that summarises
      `U` all come from overridable declarations of `U`. */
  lemma InstallsFromTracker(t: Tracker, U: set<Decl>, order: seq<string>)
    requires Tracks(t, U)
    ensures InstallsFrom(Installs(t, order), U)
  {
    var ins := Installs(t, order);
    forall j | 0 <= j < |ins| ensures InstallFrom(U, ins[j].0, ins[j].1) {
      InstallsDeclared(t, U, order, ins[j]);
      var d :| d in OverridableDecls(U, ins[j].0) && d.meta == ins[j].1;
      assert Overrides(d, ins[j].0, U);
    }
  }

  // ---------------------------------------------------------------------------
  // Phase 3 for fields

  /** The install `(n, m)` is in place: a plain one has a binding under `n`,
      a sparse one has its id among the variants stored under `n`. */
  ghost predicate InstallBound(fields: map<string, Metadata>, sparse: map<string, seq<Metadata>>, n: string, m: Metadata)
  {
    if m.sparse then n in sparse && HasId(sparse[n], m.sparseId) else n in fields
  }

  /** Every sparse overridable declaration of `U` that phase 3 installs has
      its id among the variants stored under its name. */
  ghost predicate OverrideCoverage(fields: map<string, Metadata>, sparse: map<string, seq<Metadata>>, U: set<Decl>)
  {
    forall d :: d in U && d.meta.sparse && Overrides(d, d.name, U) ==> BoundAt(fields, sparse, d, d.name)
  }

  lemma InstallBoundGrows(f1: map<string, Metadata>, s1: map<string, seq<Metadata>>,
                          f2: map<string, Metadata>, s2: map<string, seq<Metadata>>, n: string, m: Metadata)
    requires InstallBound(f1, s1, n, m) && FieldsGrow(f1, s1, f2, s2)
    ensures InstallBound(f2, s2, n, m)
  {
    if m.sparse {
      var k :| 0 <= k < |s1[n]| && s1[n][k].sparseId == m.sparseId;
      assert s2[n][k] == s1[n][k];
    }
  }

  lemma FieldsGrowTrans(f1: map<string, Metadata>, s1: map<string, seq<Metadata>>,
                        f2: map<string, Metadata>, s2: map<string, seq<Metadata>>,
                        f3: map<string, Metadata>, s3: map<string, seq<Metadata>>)
    requires FieldsGrow(f1, s1, f2, s2) && FieldsGrow(f2, s2, f3, s3)
    ensures FieldsGrow(f1, s1, f3, s3)
  {
  }

  /** The sparse lists after `AddField(n, m)` of a sparse `m` that does not
      clash with the first variant under `n`: a new id is appended, a known
      first id leaves the list as it is. */
  function SparseAdded(sparse: map<string, seq<Metadata>>, n: string, m: Metadata): map<string, seq<Metadata>>
  {
    if n !in sparse then sparse[n := [m]]
    else if sparse[n] != [] && sparse[n][0].sparseId == m.sparseId then sparse
    else sparse[n := sparse[n] + [m]]
  }

  /** Installing the sparse `m` of the overridable declaration `d` keeps every
      variant's provenance and puts the id in place. */
  lemma SparseInstalled(f: map<string, Metadata>, s: map<string, seq<Metadata>>, U: set<Decl>, n: string, m: Metadata,
                        d: Decl)
    requires FieldProvenance(f, s, U) && m.sparse
    requires d in U && Overrides(d, n, U) && d.meta == m
    ensures FieldProvenance(f, SparseAdded(s, n, m), U) && FieldsGrow(f, s, f, SparseAdded(s, n, m))
    ensures InstallBound(f, SparseAdded(s, n, m), n, m) && SparseAdded(s, n, m).Keys == s.Keys + {n}
  {
    var s2 := SparseAdded(s, n, m);
    assert EntryFrom(U, n, m) by {
      assert d.meta.sparse && StoredUnder(U, d, n);
    }
    if n in s && s[n] != [] && s[n][0].sparseId == m.sparseId {
    } else if n in s {
      assert s2[n][|s[n]|] == m;
    } else {
      assert s2[n][0] == m;
    }
    forall w, k | w in s2 && 0 <= k < |s2[w]| ensures EntryFrom(U, w, s2[w][k]) {
      if w == n && k >= |Listed(s, n)| {
        assert s2[w][k] == m;
      } else {
        assert s2[w][k] == s[w][k];
      }
    }
  }

  /** Installing the plain `m` of the overridable declaration `d` keeps every
      binding's provenance and binds `n`. */
  lemma PlainInstalled(f: map<string, Metadata>, s: map<string, seq<Metadata>>, U: set<Decl>, n: string, m: Metadata,
                       d: Decl)
    requires FieldProvenance(f, s, U) && !m.sparse
    requires d in U && Overrides(d, n, U) && d.meta == m
    ensures FieldProvenance(PlainAdded(f, n, m), s, U) && FieldsGrow(f, s, PlainAdded(f, n, m), s)
    ensures InstallBound(PlainAdded(f, n, m), s, n, m) && PlainAdded(f, n, m).Keys == f.Keys + {n}
  {
    PlainInstalledFrom(f, s, U, n, m, d);
    PlainAddedKeys(f, n, m);
  }

  /** The plain install `(n, m)` of the declaration `d` keeps every binding's
      provenance. */
  lemma PlainInstalledFrom(f: map<string, Metadata>, s: map<string, seq<Metadata>>, U: set<Decl>, n: string,
                           m: Metadata, d: Decl)
    requires FieldProvenance(f, s, U) && !m.sparse
    requires d in U && Overrides(d, n, U) && d.meta == m
    ensures FieldProvenance(PlainAdded(f, n, m), s, U)
  {
    var f2 := PlainAdded(f, n, m);
    forall w | w in f2 ensures PlainFrom(U, w, f2[w]) {
      if w !in f {
        assert w == n && f2[w] == Stored(d.meta);
      }
    }
  }

  /** A plain `AddField` leaves the name bound, and adds no other. */
  lemma PlainAddedKeys(f: map<string, Metadata>, n: string, m: Metadata)
    ensures PlainAdded(f, n, m).Keys == f.Keys + {n}
  {
  }

  /** `add_overridable_var` for one install: `AddField` under the bare name.
      The binding it makes comes from the declaration the install comes from;
      a throw is a sparse variant that is not `SparseEqual` to the first one
      stored under that name. */
  method AddInstall(state: StateDescriptor, n: string, m: Metadata, ghost U: set<Decl>) returns (r: Outcome)
    requires state.Valid()
    requires FieldProvenance(state.metadataMap, state.sparseMetadataMap, U) && InstallFrom(U, n, m)
    modifies state
    ensures state.Valid()
    ensures state.swarmMetadataMap == old(state.swarmMetadataMap)
    ensures state.swarmValueMetadataMap == old(state.swarmValueMetadataMap)
    ensures r.Pass? ==>
      && state.FieldNames() == old(state.FieldNames()) + {n}
      && FieldsGrow(old(state.metadataMap), old(state.sparseMetadataMap), state.metadataMap, state.sparseMetadataMap)
      && FieldProvenance(state.metadataMap, state.sparseMetadataMap, U)
      && InstallBound(state.metadataMap, state.sparseMetadataMap, n, m)
    ensures r.Fail? ==> r.error == SparseMetadataMismatch && SparseClash(U)
  {
    ghost var f, s := state.metadataMap, state.sparseMetadataMap;
    ghost var d :| d in U && Overrides(d, n, U) && d.meta == m;
    var added := state.AddField(n, m);
    if added.Err? {
      assert EntryFrom(U, n, s[n][0]);
      assert EntryFrom(U, n, m) by {
        assert d.meta.sparse && StoredUnder(U, d, n);
      }
      ClashOfEntries(U, n, s[n][0], m);
      return Fail(added.error);
    }
    if m.sparse {
      SparseInstalled(f, s, U, n, m, d);
    } else {
      PlainInstalled(f, s, U, n, m, d);
    }
    r := Pass;
  }

  /** The field bindings once the first `k` installs are made over the
      bindings `f0, s0`: the names are the old ones plus those installed,
      every old binding is kept, every binding comes from `U`, and each of
      those installs is in place. */
  ghost predicate FieldsInstalled(f0: map<string, Metadata>, s0: map<string, seq<Metadata>>,
                                  f: map<string, Metadata>, s: map<string, seq<Metadata>>,
                                  U: set<Decl>, installs: seq<(string, Metadata)>, k: int)
    requires 0 <= k <= |installs|
  {
    && f.Keys + s.Keys == f0.Keys + s0.Keys + InstallNames(installs[..k])
    && FieldsGrow(f0, s0, f, s)
    && FieldProvenance(f, s, U)
    && forall j :: 0 <= j < k ==> InstallBound(f, s, installs[j].0, installs[j].1)
  }

  /** One more install, made as `AddInstall` promises, extends what the
      earlier ones established. */
  lemma InstalledStep(f0: map<string, Metadata>, s0: map<string, seq<Metadata>>,
                      f: map<string, Metadata>, s: map<string, seq<Metadata>>,
                      f2: map<string, Metadata>, s2: map<string, seq<Metadata>>,
                      U: set<Decl>, installs: seq<(string, Metadata)>, k: int)
    requires 0 <= k < |installs| && FieldsInstalled(f0, s0, f, s, U, installs, k)
    requires f2.Keys + s2.Keys == f.Keys + s.Keys + {installs[k].0}
    requires FieldsGrow(f, s, f2, s2) && FieldProvenance(f2, s2, U)
    requires InstallBound(f2, s2, installs[k].0, installs[k].1)
    ensures FieldsInstalled(f0, s0, f2, s2, U, installs, k + 1)
  {
    FieldsGrowTrans(f0, s0, f, s, f2, s2);
    InstallsStayBound(f, s, f2, s2, installs, k);
    InstallNamesSnoc(installs, k);
  }

  /** The first `k` installs, in place before, stay in place as the bindings
      grow, and install `k` joins them. */
  lemma InstallsStayBound(f: map<string, Metadata>, s: map<string, seq<Metadata>>,
                          f2: map<string, Metadata>, s2: map<string, seq<Metadata>>,
                          installs: seq<(string, Metadata)>, k: int)
    requires 0 <= k < |installs| && FieldsGrow(f, s, f2, s2)
    requires forall j :: 0 <= j < k ==> InstallBound(f, s, installs[j].0, installs[j].1)
    requires InstallBound(f2, s2, installs[k].0, installs[k].1)
    ensures forall j :: 0 <= j < k + 1 ==> InstallBound(f2, s2, installs[j].0, installs[j].1)
  {
    forall j | 0 <= j < k + 1 ensures InstallBound(f2, s2, installs[j].0, installs[j].1) {
      if j < k {
        InstallBoundGrows(f, s, f2, s2, installs[j].0, installs[j].1);
      }
    }
  }

  /** `add_overridable_var` over the installs of `CheckOverridable`, in order:
      each goes through `AddField` under its bare name. */
  method InstallFields(state: StateDescriptor, installs: seq<(string, Metadata)>, ghost U: set<Decl>)
    returns (r: Outcome)
    requires state.Valid()
    requires FieldProvenance(state.metadataMap, state.sparseMetadataMap, U) && InstallsFrom(installs, U)
    modifies state
    ensures state.Valid()
    ensures state.swarmMetadataMap == old(state.swarmMetadataMap)
    ensures state.swarmValueMetadataMap == old(state.swarmValueMetadataMap)
    ensures r.Pass? ==> FieldsInstalled(old(state.metadataMap), old(state.sparseMetadataMap),
                                        state.metadataMap, state.sparseMetadataMap, U, installs, |installs|)
    ensures r.Fail? ==> r.error == SparseMetadataMismatch && SparseClash(U)
  {
    ghost var f0, s0 := state.metadataMap, state.sparseMetadataMap;
    var k := 0;
    assert installs[..0] == [];
    while k < |installs|
      invariant 0 <= k <= |installs|
      invariant state.Valid()
      invariant state.swarmMetadataMap == old(state.swarmMetadataMap)
      invariant state.swarmValueMetadataMap == old(state.swarmValueMetadataMap)
      invariant FieldsInstalled(f0, s0, state.metadataMap, state.sparseMetadataMap, U, installs, k)
    {
      ghost var f, s := state.metadataMap, state.sparseMetadataMap;
      assert InstallFrom(U, installs[k].0, installs[k].1);
      r := AddInstall(state, installs[k].0, installs[k].1, U);
      if r.Fail? {
        return;
      }
      InstalledStep(f0, s0, f, s, state.metadataMap, state.sparseMetadataMap, U, installs, k);
      k := k + 1;
    }
    r := Pass;
  }

  /** `CheckOverridable` on the field tracker: every overridable name nobody
      provides is installed under its bare name, with every one of its
      candidates; the bindings phase 1 made are kept. */
  method OverrideFields(vt: DependencyTracker, state: StateDescriptor, ghost U: set<Decl>) returns (r: Outcome)
    requires vt.Valid() && state.Valid()
    requires Tracks(vt.State(), U) && FieldsFrom(state.metadataMap, state.sparseMetadataMap, U, U)
    modifies state
    ensures state.Valid()
    ensures state.swarmMetadataMap == old(state.swarmMetadataMap)
    ensures state.swarmValueMetadataMap == old(state.swarmValueMetadataMap)
    ensures r.Pass? ==>
      && state.FieldNames() == old(state.FieldNames()) + (NamesWith(U, Overridable) - NamesWith(U, Provides))
      && FieldProvenance(state.metadataMap, state.sparseMetadataMap, U)
      && FieldCoverage(state.metadataMap, state.sparseMetadataMap, U)
      && OverrideCoverage(state.metadataMap, state.sparseMetadataMap, U)
    ensures r.Fail? ==> r.error == SparseMetadataMismatch && FieldFailure(r.error, U)
  {
    ghost var f, s := state.metadataMap, state.sparseMetadataMap;
    var order, installs, warned := vt.CheckOverridable();
    ghost var t := vt.State();
    InstalledNames(t, order);
    InstallsFromTracker(t, U, order);
    r := InstallFields(state, installs, U);
    if r.Pass? {
      assert installs[..|installs|] == installs;
      CoverageGrows(f, s, state.metadataMap, state.sparseMetadataMap, U);
      OverrideCovered(t, U, order, state.metadataMap, state.sparseMetadataMap);
    }
  }

  /** Once every install of `CheckOverridable` is in place, so is every
      sparse overridable declaration that nobody provides. */
  lemma OverrideCovered(t: Tracker, U: set<Decl>, order: seq<string>,
                        f: map<string, Metadata>, s: map<string, seq<Metadata>>)
    requires Consistent(t) && Tracks(t, U) && (set v | v in order) == t.overridableCount.Keys
    requires forall j :: 0 <= j < |Installs(t, order)| ==>
               InstallBound(f, s, Installs(t, order)[j].0, Installs(t, order)[j].1)
    ensures OverrideCoverage(f, s, U)
  {
    forall d | d in U && d.meta.sparse && Overrides(d, d.name, U) ensures BoundAt(f, s, d, d.name) {
      OverrideCoveredOne(t, U, order, f, s, d);
    }
  }

  lemma OverrideCoveredOne(t: Tracker, U: set<Decl>, order: seq<string>,
                           f: map<string, Metadata>, s: map<string, seq<Metadata>>, d: Decl)
    requires Consistent(t) && Tracks(t, U) && (set v | v in order) == t.overridableCount.Keys
    requires forall j :: 0 <= j < |Installs(t, order)| ==>
               InstallBound(f, s, Installs(t, order)[j].0, Installs(t, order)[j].1)
    requires d in U && d.meta.sparse && Overrides(d, d.name, U)
    ensures BoundAt(f, s, d, d.name)
  {
    var installs := Installs(t, order);
    assert d in OverridableDecls(U, d.name);
    assert d.name in (set v | v in order);
    InstallsCoverIds(t, U, order, d);
    var m: Metadata :| (d.name, m) in installs && m.sparse && m.sparseId == d.meta.sparseId;
    var j := IndexOf(installs, (d.name, m));
    assert InstallBound(f, s, installs[j].0, installs[j].1);
  }

  // ---------------------------------------------------------------------------
  // Phase 3 for swarms

  /** `add_overridable_swarm`: registers the swarm under its bare name, then
      copies the values of the first package that has a swarm of that name. */
  method AddOverridableSwarm(state: StateDescriptor, packages: seq<StateDescriptor>, ghost ds: seq<PackageData>,
                             swarm: string, m: Metadata)
    returns (r: Outcome)
    requires state.Valid() && state !in packages
    requires |ds| == |packages| && forall j :: 0 <= j < |packages| ==> packages[j].Data() == ds[j]
    modifies state
    ensures state.Valid()
    ensures state.metadataMap == old(state.metadataMap) && state.sparseMetadataMap == old(state.sparseMetadataMap)
    ensures r.Pass? ==>
      && swarm !in old(state.swarmMetadataMap)
      && state.swarmMetadataMap == old(state.swarmMetadataMap)[swarm := m]
      && ValuesOf(state.swarmValueMetadataMap, swarm) == FirstValues(ds, swarm)
      && forall w :: w != swarm ==> ValuesOf(state.swarmValueMetadataMap, w) == ValuesOf(old(state.swarmValueMetadataMap), w)
    ensures r.Fail? ==> r.error == DuplicateSwarm(swarm) && swarm in old(state.swarmMetadataMap)
  {
    var added := state.AddSwarm(swarm, m);
    if added.Err? {
      return Fail(added.error);
    }
    var j := 0;
    while j < |packages|
      invariant 0 <= j <= |packages|
      invariant FirstValues(ds, swarm) == FirstValues(ds[j..], swarm)
    {
      assert ds[j..][1..] == ds[j + 1..];
      if packages[j].SwarmPresent(swarm) {
        label Copy:
        CopyValues(state, packages[j], swarm, swarm);
        forall w | w != swarm
          ensures ValuesOf(state.swarmValueMetadataMap, w) == ValuesOf(old(state.swarmValueMetadataMap), w)
        {
          assert state.SwarmValues(w) == old@Copy(state.SwarmValues(w));
        }
        return Pass;
      }
      j := j + 1;
    }
    r := Pass;
  }

  /** The swarm bindings once the first `k` installs are made over the
      bindings `sw0` phase 1 left: the names are phase 1's plus those
      installed, every binding comes from a declaration of `Us`, every routed
      declaration is still in place, and each of those installs is bound to
      its metadata with the values of the first package that has the swarm. */
  ghost predicate SwarmsInstalled(sw0: map<string, Metadata>, swarms: map<string, Metadata>,
                                  values: map<string, map<string, Metadata>>,
                                  Us: set<Decl>, ds: seq<PackageData>, installs: seq<(string, Metadata)>, k: int)
    requires 0 <= k <= |installs|
  {
    InstalledBindings(sw0, swarms, values, Us, ds, installs, k)
  }

  /** The facts of `SwarmsInstalled`, spelled out. `SwarmsInstalled` keeps
      them behind one call, so that the install loop carries them as a single
      invariant and opens them only where a lemma needs them. */
  ghost predicate InstalledBindings(sw0: map<string, Metadata>, swarms: map<string, Metadata>,
                                    values: map<string, map<string, Metadata>>,
                                    Us: set<Decl>, ds: seq<PackageData>, installs: seq<(string, Metadata)>, k: int)
    requires 0 <= k <= |installs|
  {
    && swarms.Keys == sw0.Keys + InstallNames(installs[..k])
    && SwarmProvenance(swarms, values, Us, ds)
    && SwarmCoverage(swarms, values, Us, ds)
    && InstallsBound(swarms, values, ds, installs, k)
  }

  /** Each of the first `k` installs is bound to its metadata, with the
      values of the first package that has the swarm. */
  ghost predicate InstallsBound(swarms: map<string, Metadata>, values: map<string, map<string, Metadata>>,
                                ds: seq<PackageData>, installs: seq<(string, Metadata)>, k: int)
    requires 0 <= k <= |installs|
  {
    forall j :: 0 <= j < k ==>
      && installs[j].0 in swarms && swarms[installs[j].0] == installs[j].1
      && ValuesOf(values, installs[j].0) == FirstValues(ds, installs[j].0)
  }

  /** Registering the install `k` under a name that was not bound keeps the
      earlier installs bound and binds this one. */
  lemma InstallsBoundStep(sw: map<string, Metadata>, vals: map<string, map<string, Metadata>>,
                          sw2: map<string, Metadata>, vals2: map<string, map<string, Metadata>>,
                          ds: seq<PackageData>, installs: seq<(string, Metadata)>, k: int)
    requires 0 <= k < |installs| && InstallsBound(sw, vals, ds, installs, k)
    requires installs[k].0 !in sw && sw2 == sw[installs[k].0 := installs[k].1]
    requires ValuesOf(vals2, installs[k].0) == FirstValues(ds, installs[k].0)
    requires forall w :: w != installs[k].0 ==> ValuesOf(vals2, w) == ValuesOf(vals, w)
    ensures InstallsBound(sw2, vals2, ds, installs, k + 1)
  {
    forall j | 0 <= j < k + 1
      ensures installs[j].0 in sw2 && sw2[installs[j].0] == installs[j].1
      ensures ValuesOf(vals2, installs[j].0) == FirstValues(ds, installs[j].0)
    {
      if j < k {
        assert installs[j].0 in sw;
      }
    }
  }

  /** A swarm name registered twice, once by phase 1 or an earlier install
      and again by the install `k`, is claimed by two declarations. */
  lemma InstallClash(sw0: map<string, Metadata>, sw: map<string, Metadata>, vals: map<string, map<string, Metadata>>,
                     Us: set<Decl>, ds: seq<PackageData>, installs: seq<(string, Metadata)>, k: int)
    requires InstallsFrom(installs, Us) && OneIdOnce(installs) && 0 <= k < |installs|
    requires sw0.Keys == Installed(Us) && SwarmsInstalled(sw0, sw, vals, Us, ds, installs, k)
    requires installs[k].0 in sw
    ensures SwarmClash(Us, installs[k].0)
  {
    var n := installs[k].0;
    assert InstallFrom(Us, n, installs[k].1);
    var d2 :| d2 in Us && Overrides(d2, n, Us) && d2.meta == installs[k].1;
    if n in Installed(Us) {
      var d1 := InstalledRouted(Us, n);
      assert d1 in Us && d2 in Us && d1 != d2 && Routes(d1, n) && Overrides(d2, n, Us);
    } else {
      assert n in InstallNames(installs[..k]);
      var x :| x in installs[..k] && x.0 == n;
      var j := IndexOf(installs[..k], x);
      assert installs[j].0 == n && installs[j].1 != installs[k].1;
      assert InstallFrom(Us, n, installs[j].1);
      var d1 :| d1 in Us && Overrides(d1, n, Us) && d1.meta == installs[j].1;
      assert d2.meta.sparse && (d1.meta.sparse ==> d1.meta.sparseId != d2.meta.sparseId);
    }
  }

  /** Registering the install `(n, m)` with the values of the first package
      that has `n` keeps every swarm binding's provenance. */
  lemma InstallProvenance(sw: map<string, Metadata>, vals: map<string, map<string, Metadata>>,
                          sw2: map<string, Metadata>, vals2: map<string, map<string, Metadata>>,
                          Us: set<Decl>, ds: seq<PackageData>, n: string, m: Metadata)
    requires SwarmProvenance(sw, vals, Us, ds) && InstallFrom(Us, n, m)
    requires sw2 == sw[n := m] && ValuesOf(vals2, n) == FirstValues(ds, n)
    requires forall w :: w != n ==> ValuesOf(vals2, w) == ValuesOf(vals, w)
    ensures SwarmProvenance(sw2, vals2, Us, ds)
  {
    forall w | w in sw2 ensures SwarmFrom(Us, ds, w, sw2[w], ValuesOf(vals2, w)) {
      if w == n {
        var d :| d in Us && Overrides(d, n, Us) && d.meta == m;
        assert d.meta == sw2[w];
      } else {
        assert SwarmFrom(Us, ds, w, sw[w], ValuesOf(vals, w));
      }
    }
  }

  /** Registering a swarm name that was not bound keeps every routed swarm
      declaration in place. */
  lemma InstallKeepsCoverage(sw: map<string, Metadata>, vals: map<string, map<string, Metadata>>,
                             sw2: map<string, Metadata>, vals2: map<string, map<string, Metadata>>,
                             Us: set<Decl>, ds: seq<PackageData>, n: string, m: Metadata)
    requires SwarmCoverage(sw, vals, Us, ds)
    requires n !in sw && sw2 == sw[n := m]
    requires forall w :: w != n ==> ValuesOf(vals2, w) == ValuesOf(vals, w)
    ensures SwarmCoverage(sw2, vals2, Us, ds)
  {
    forall e | e in Us && Routes(e, BindName(e))
      ensures BindName(e) in sw2 && sw2[BindName(e)] == e.meta
      ensures ValuesOf(vals2, BindName(e)) == DeclaredValues(ds, e.package, e.name)
    {
      assert BindName(e) in sw;
    }
  }

  /** One install keeps the phase-1 bindings and the earlier installs: it
      only adds a name that was not bound. */
  lemma SwarmInstallStep(sw0: map<string, Metadata>, sw: map<string, Metadata>, vals: map<string, map<string, Metadata>>,
                         sw2: map<string, Metadata>, vals2: map<string, map<string, Metadata>>,
                         Us: set<Decl>, ds: seq<PackageData>, installs: seq<(string, Metadata)>, k: int)
    requires InstallsFrom(installs, Us) && 0 <= k < |installs|
    requires SwarmsInstalled(sw0, sw, vals, Us, ds, installs, k)
    requires installs[k].0 !in sw && sw2 == sw[installs[k].0 := installs[k].1]
    requires ValuesOf(vals2, installs[k].0) == FirstValues(ds, installs[k].0)
    requires forall w :: w != installs[k].0 ==> ValuesOf(vals2, w) == ValuesOf(vals, w)
    ensures SwarmsInstalled(sw0, sw2, vals2, Us, ds, installs, k + 1)
  {
    var n, m := installs[k].0, installs[k].1;
    InstallNamesSnoc(installs, k);
    assert InstallFrom(Us, n, m);
    InstallProvenance(sw, vals, sw2, vals2, Us, ds, n, m);
    InstallKeepsCoverage(sw, vals, sw2, vals2, Us, ds, n, m);
    InstallsBoundStep(sw, vals, sw2, vals2, ds, installs, k);
  }

  /** The install `k`: registers one more swarm, or reports the name that
      two declarations claim. */
  method InstallSwarm(state: StateDescriptor, packages: seq<StateDescriptor>, ghost ds: seq<PackageData>,
                      installs: seq<(string, Metadata)>, k: int, ghost sw0: map<string, Metadata>, ghost Us: set<Decl>)
    returns (r: Outcome)
    requires state.Valid() && state !in packages
    requires |ds| == |packages| && forall j :: 0 <= j < |packages| ==> packages[j].Data() == ds[j]
    requires InstallsFrom(installs, Us) && OneIdOnce(installs) && 0 <= k < |installs|
    requires sw0.Keys == Installed(Us)
    requires SwarmsInstalled(sw0, state.swarmMetadataMap, state.swarmValueMetadataMap, Us, ds, installs, k)
    modifies state
    ensures state.Valid()
    ensures state.metadataMap == old(state.metadataMap) && state.sparseMetadataMap == old(state.sparseMetadataMap)
    ensures r.Pass? ==> SwarmsInstalled(sw0, state.swarmMetadataMap, state.swarmValueMetadataMap, Us, ds, installs, k + 1)
    ensures r.Fail? ==> r.error.DuplicateSwarm? && SwarmClash(Us, r.error.name)
  {
    ghost var sw, vals := state.swarmMetadataMap, state.swarmValueMetadataMap;
    r := AddOverridableSwarm(state, packages, ds, installs[k].0, installs[k].1);
    if r.Fail? {
      InstallClash(sw0, sw, vals, Us, ds, installs, k);
    } else {
      SwarmInstallStep(sw0, sw, vals, state.swarmMetadataMap, state.swarmValueMetadataMap, Us, ds, installs, k);
    }
  }

  /** `add_overridable_swarm` over the installs of `CheckOverridable`, in order. */
  method InstallSwarms(state: StateDescriptor, packages: seq<StateDescriptor>, ghost ds: seq<PackageData>,
                       installs: seq<(string, Metadata)>, ghost Us: set<Decl>)
    returns (r: Outcome)
    requires state.Valid() && state !in packages
    requires |ds| == |packages| && forall j :: 0 <= j < |packages| ==> packages[j].Data() == ds[j]
    requires InstallsFrom(installs, Us) && OneIdOnce(installs)
    requires state.swarmMetadataMap.Keys == Installed(Us)
    requires SwarmProvenance(state.swarmMetadataMap, state.swarmValueMetadataMap, Us, ds)
    requires SwarmCoverage(state.swarmMetadataMap, state.swarmValueMetadataMap, Us, ds)
    modifies state
    ensures state.Valid()
    ensures state.metadataMap == old(state.metadataMap) && state.sparseMetadataMap == old(state.sparseMetadataMap)
    ensures r.Pass? ==> SwarmsInstalled(old(state.swarmMetadataMap), state.swarmMetadataMap,
                                        state.swarmValueMetadataMap, Us, ds, installs, |installs|)
    ensures r.Fail? ==> r.error.DuplicateSwarm? && SwarmClash(Us, r.error.name)
  {
    ghost var sw0 := state.swarmMetadataMap;
    var k := 0;
    assert installs[..0] == [];
    while k < |installs|
      invariant 0 <= k <= |installs|
      invariant state.Valid()
      invariant state.metadataMap == old(state.metadataMap) && state.sparseMetadataMap == old(state.sparseMetadataMap)
      invariant SwarmsInstalled(sw0, state.swarmMetadataMap, state.swarmValueMetadataMap, Us, ds, installs, k)
    {
      r := InstallSwarm(state, packages, ds, installs, k, sw0, Us);
      if r.Fail? {
        return;
      }
      k := k + 1;
    }
    r := Pass;
  }

  /** Every overridable swarm that nobody provides is bound to the metadata
      of one of its overridable declarations, with the values of the first
      package that has a swarm of that name. */
  ghost predicate OverridesInstalled(swarms: map<string, Metadata>, values: map<string, map<string, Metadata>>,
                                     Us: set<Decl>, ds: seq<PackageData>)
  {
    forall v :: v in NamesWith(Us, Overridable) - NamesWith(Us, Provides) ==>
      && v in swarms && OverridableMeta(Us, v, swarms[v])
      && ValuesOf(values, v) == FirstValues(ds, v)
  }

  /** Once every install is made, the names bound are phase 1's plus the
      overridable names nobody provides, and each of those carries the
      metadata of one of its overridable declarations. */
  lemma OverridesFromInstalls(sw0: map<string, Metadata>, sw: map<string, Metadata>,
                              vals: map<string, map<string, Metadata>>,
                              Us: set<Decl>, ds: seq<PackageData>, installs: seq<(string, Metadata)>)
    requires InstallsFrom(installs, Us)
    requires InstallNames(installs) == NamesWith(Us, Overridable) - NamesWith(Us, Provides)
    requires SwarmsInstalled(sw0, sw, vals, Us, ds, installs, |installs|)
    ensures sw.Keys == sw0.Keys + (NamesWith(Us, Overridable) - NamesWith(Us, Provides))
    ensures OverridesInstalled(sw, vals, Us, ds)
  {
    assert installs[..|installs|] == installs;
    forall v | v in NamesWith(Us, Overridable) - NamesWith(Us, Provides)
      ensures v in sw && OverridableMeta(Us, v, sw[v])
      ensures ValuesOf(vals, v) == FirstValues(ds, v)
    {
      var x :| x in installs && x.0 == v;
      var j := IndexOf(installs, x);
      assert InstallFrom(Us, v, installs[j].1);
      var d :| d in Us && Overrides(d, v, Us) && d.meta == installs[j].1;
      assert d in OverridableDecls(Us, v);
    }
  }

  /** `CheckOverridable` on the swarm tracker: every overridable swarm nobody
      provides is registered under its bare name, with the metadata of one of
      its overridable declarations and the values of the first package that
      has it; the bindings phase 1 made are kept. */
  method OverrideSwarms(st: DependencyTracker, state: StateDescriptor, packages: seq<StateDescriptor>,
                        ghost ds: seq<PackageData>, ghost Us: set<Decl>)
    returns (r: Outcome)
    requires st.Valid() && state.Valid() && state !in packages
    requires |ds| == |packages| && forall j :: 0 <= j < |packages| ==> packages[j].Data() == ds[j]
    requires Tracks(st.State(), Us)
    requires SwarmsFrom(state.swarmMetadataMap, state.swarmValueMetadataMap, Us, Us, ds)
    modifies state
    ensures state.Valid()
    ensures state.metadataMap == old(state.metadataMap) && state.sparseMetadataMap == old(state.sparseMetadataMap)
    ensures r.Pass? ==>
      && state.swarmMetadataMap.Keys ==
           old(state.swarmMetadataMap.Keys) + (NamesWith(Us, Overridable) - NamesWith(Us, Provides))
      && SwarmProvenance(state.swarmMetadataMap, state.swarmValueMetadataMap, Us, ds)
      && SwarmCoverage(state.swarmMetadataMap, state.swarmValueMetadataMap, Us, ds)
      && OverridesInstalled(state.swarmMetadataMap, state.swarmValueMetadataMap, Us, ds)
    ensures r.Fail? ==> r.error.DuplicateSwarm? && SwarmFailure(r.error, Us)
  {
    var order, installs, warned := st.CheckOverridable();
    InstalledNames(st.State(), order);
    InstallsFromTracker(st.State(), Us, order);
    InstallsIdsDistinct(st.State(), order);
    r := InstallSwarms(state, packages, ds, installs, Us);
    if r.Pass? {
      OverridesFromInstalls(old(state.swarmMetadataMap), state.swarmMetadataMap, state.swarmValueMetadataMap,
                            Us, ds, installs);
    }
  }

  // ---------------------------------------------------------------------------
  // ResolvePackages

  /** What a successful resolution of the (normalised) declarations `ds`
      yields: no name provided twice and every required name provided, in both
      namespaces; the field and swarm names are phase 1's plus the overridable
      names nobody provides; every binding comes from a declaration; every
      routed declaration is bound under its name (a routed swarm with its own
      metadata and values), every sparse overridable id is stored under its
      name, and every overridable swarm carries the metadata of one of its
      declarations and the values of the first package that has it. The state
      is well formed: in particular every sparse variant stored under a name
      is `SparseEqual` to the first one stored there. */
  ghost predicate ResolvedFrom(state: StateDescriptor, ds: seq<PackageData>)
    reads state
  {
    var fields, swarms := AllFieldDecls(ds), AllSwarmDecls(ds);
    && state.Valid()
    && ProvidersUnique(fields) && ProvidersUnique(swarms)
    && NamesWith(fields, Requires) <= NamesWith(fields, Provides)
    && NamesWith(swarms, Requires) <= NamesWith(swarms, Provides)
    && state.FieldNames() == Resolved(fields)
    && FieldProvenance(state.metadataMap, state.sparseMetadataMap, fields)
    && FieldCoverage(state.metadataMap, state.sparseMetadataMap, fields)
    && OverrideCoverage(state.metadataMap, state.sparseMetadataMap, fields)
    && state.swarmMetadataMap.Keys == Resolved(swarms)
    && SwarmProvenance(state.swarmMetadataMap, state.swarmValueMetadataMap, swarms, ds)
    && SwarmCoverage(state.swarmMetadataMap, state.swarmValueMetadataMap, swarms, ds)
    && OverridesInstalled(state.swarmMetadataMap, state.swarmValueMetadataMap, swarms, ds)
  }

  /** A resolved state never holds two sparse variants under one name that
      `AddField` would reject: each is `SparseEqual` to the first one. */
  lemma ResolvedSparseAgree(state: StateDescriptor, ds: seq<PackageData>, n: string, k: int)
    requires ResolvedFrom(state, ds)
    requires n in state.sparseMetadataMap && 0 <= k < |state.sparseMetadataMap[n]|
    ensures SparseEqual(state.sparseMetadataMap[n][0], state.sparseMetadataMap[n][k])
  {
  }

  /** Why a resolution of `ds` may throw: a second provider, sparse variants
      stored under one name that are not `SparseEqual`, a swarm name
      registered twice, or a required name that nobody provides. Nothing else
      throws. */
  ghost predicate FailureFrom(e: Error, ds: seq<PackageData>)
  {
    || FieldFailure(e, AllFieldDecls(ds)) || SwarmFailure(e, AllSwarmDecls(ds))
    || (e.UnsatisfiedRequirement? && (Unsatisfied(AllFieldDecls(ds), e.name) || Unsatisfied(AllSwarmDecls(ds), e.name)))
  }

  /** The declarations `ds` hold one of the causes of a throw. */
  ghost predicate Conflicting(ds: seq<PackageData>)
  {
    var fields, swarms := AllFieldDecls(ds), AllSwarmDecls(ds);
    || (exists v :: TwoProviders(fields, v)) || (exists v :: TwoProviders(swarms, v))
    || SparseClash(fields)
    || (exists n :: SwarmClash(swarms, n))
    || (exists v :: Unsatisfied(fields, v)) || (exists v :: Unsatisfied(swarms, v))
  }

  /** Every throw names a cause the declarations hold. */
  lemma FailureConflicting(e: Error, ds: seq<PackageData>)
    requires FailureFrom(e, ds)
    ensures Conflicting(ds)
  {
    var fields, swarms := AllFieldDecls(ds), AllSwarmDecls(ds);
    if FieldFailure(e, fields) {
      if e.DuplicateProvider? {
        assert TwoProviders(fields, e.name);
      }
    } else if SwarmFailure(e, swarms) {
      if e.DuplicateProvider? {
        assert TwoProviders(swarms, e.name);
      } else {
        assert SwarmClash(swarms, e.name);
      }
    } else if Unsatisfied(fields, e.name) {
    } else {
      assert Unsatisfied(swarms, e.name);
    }
  }

  /** `e` is routed to `n` in phase 1 or installed there in phase 3. */
  ghost predicate PlainClaims(e: Decl, n: string, U: set<Decl>)
  {
    Routes(e, n) || Overrides(e, n, U)
  }

  /** A name that exactly one plain declaration routes to or installs is
      bound to that declaration's metadata, as `AddField` stores it. */
  lemma ResolvedPlainBinding(state: StateDescriptor, ds: seq<PackageData>, d: Decl)
    requires ResolvedFrom(state, ds)
    requires d in AllFieldDecls(ds) && !d.meta.sparse && Routes(d, BindName(d))
    requires forall e :: e in AllFieldDecls(ds) && !e.meta.sparse && PlainClaims(e, BindName(d), AllFieldDecls(ds))
               ==> e == d
    ensures BindName(d) in state.metadataMap && state.metadataMap[BindName(d)] == Stored(d.meta)
  {
    var fields := AllFieldDecls(ds);
    var n := BindName(d);
    assert BoundAt(state.metadataMap, state.sparseMetadataMap, d, n);
    assert PlainFrom(fields, n, state.metadataMap[n]);
    var e :| e in fields && !e.meta.sparse && (Routes(e, n) || Overrides(e, n, fields)) &&
      state.metadataMap[n] == Stored(e.meta);
    assert PlainClaims(e, n, fields);
  }

  /** Phase 2: `CheckRequires` on the field tracker, then on the swarm
      tracker. It passes exactly when every required name is provided in its
      namespace, and otherwise throws naming a required name nobody provides. */
  method CheckRequirements(vt: DependencyTracker, st: DependencyTracker, ghost fields: set<Decl>, ghost swarms: set<Decl>)
    returns (r: Outcome)
    requires Tracks(vt.State(), fields) && Tracks(st.State(), swarms)
    ensures r.Pass? <==>
      NamesWith(fields, Requires) <= NamesWith(fields, Provides) &&
      NamesWith(swarms, Requires) <= NamesWith(swarms, Provides)
    ensures r.Fail? ==>
      r.error.UnsatisfiedRequirement? && (Unsatisfied(fields, r.error.name) || Unsatisfied(swarms, r.error.name))
  {
    r := vt.CheckRequires();
    if r.Fail? {
      return;
    }
    r := st.CheckRequires();
  }

  /** Phase 3: `CheckOverridable` on the field tracker, then on the swarm
      tracker, over the bindings phase 1 left. */
  method Override(vt: DependencyTracker, st: DependencyTracker, state: StateDescriptor,
                  packages: seq<StateDescriptor>, ghost ds: seq<PackageData>)
    returns (r: Outcome)
    requires vt.Valid() && st.Valid() && state.Valid() && state !in packages
    requires |ds| == |packages| && forall j :: 0 <= j < |packages| ==> packages[j].Data() == ds[j]
    requires Tracks(vt.State(), AllFieldDecls(ds)) && Tracks(st.State(), AllSwarmDecls(ds))
    requires FieldsFrom(state.metadataMap, state.sparseMetadataMap, AllFieldDecls(ds), AllFieldDecls(ds))
    requires SwarmsFrom(state.swarmMetadataMap, state.swarmValueMetadataMap, AllSwarmDecls(ds), AllSwarmDecls(ds), ds)
    modifies state
    ensures state.Valid()
    ensures r.Pass? ==>
      var fields, swarms := AllFieldDecls(ds), AllSwarmDecls(ds);
      && state.FieldNames() == Resolved(fields)
      && FieldProvenance(state.metadataMap, state.sparseMetadataMap, fields)
      && FieldCoverage(state.metadataMap, state.sparseMetadataMap, fields)
      && OverrideCoverage(state.metadataMap, state.sparseMetadataMap, fields)
      && state.swarmMetadataMap.Keys == Resolved(swarms)
      && SwarmProvenance(state.swarmMetadataMap, state.swarmValueMetadataMap, swarms, ds)
      && SwarmCoverage(state.swarmMetadataMap, state.swarmValueMetadataMap, swarms, ds)
      && OverridesInstalled(state.swarmMetadataMap, state.swarmValueMetadataMap, swarms, ds)
    ensures r.Fail? ==> FieldFailure(r.error, AllFieldDecls(ds)) || SwarmFailure(r.error, AllSwarmDecls(ds))
  {
    ghost var fields, swarms := AllFieldDecls(ds), AllSwarmDecls(ds);
    ghost var sw, vals := state.swarmMetadataMap, state.swarmValueMetadataMap;
    assert SwarmsFrom(sw, vals, swarms, swarms, ds);
    r := OverrideFields(vt, state, fields);
    if r.Fail? {
      return;
    }
    r := OverrideSwarms(st, state, packages, ds, swarms);
  }

  /** Phases 2 and 3, once phase 1 has sorted every package into the trackers
      and `state`. */
  method CheckAndOverride(vt: DependencyTracker, st: DependencyTracker, state: StateDescriptor,
                          packages: seq<StateDescriptor>, ghost ds: seq<PackageData>)
    returns (r: Outcome)
    requires vt.Valid() && st.Valid() && state.Valid() && state !in packages
    requires |ds| == |packages| && forall j :: 0 <= j < |packages| ==> packages[j].Data() == ds[j]
    requires Sorted(vt, st, state, ds, ds)
    modifies state
    ensures r.Pass? ==> state.Valid()
    ensures r.Pass? ==> ResolvedFrom(state, ds)
    ensures r.Fail? ==> FailureFrom(r.error, ds)
  {
    r := CheckRequirements(vt, st, AllFieldDecls(ds), AllSwarmDecls(ds));
    if r.Fail? {
      return;
    }
    r := Override(vt, st, state, packages, ds);
  }

  /** The three phases over the packages, into empty trackers and an empty
      resolved state: phase 1 (`SortAll`), phase 2 (`CheckRequires` on both
      trackers) and phase 3 (`CheckOverridable` on the field tracker, then on
      the swarm tracker). */
  method Resolve(packages: seq<StateDescriptor>, vt: DependencyTracker, st: DependencyTracker, state: StateDescriptor)
    returns (r: Outcome, ghost decls: seq<PackageData>)
    requires DistinctLabels(packages)
    requires forall i :: 0 <= i < |packages| ==> packages[i].Valid()
    requires vt != st && state !in packages
    requires vt.State() == Empty && st.State() == Empty && state.Data() == EmptyData(state.packageName)
    modifies vt, st, state, set p | p in packages
    ensures ValidatedFrom(old(Snapshot(packages)), decls)
    ensures r.Pass? ==> state.Valid()
    ensures r.Pass? ==> forall j :: 0 <= j < |packages| ==> packages[j].Data() == decls[j]
    ensures r.Pass? ==> ResolvedFrom(state, decls)
    ensures r.Fail? ==> exists k :: 0 <= k <= |packages| && NormalisedBefore(packages, k, old(Snapshot(packages)), decls)
    ensures r.Fail? ==> FailureFrom(r.error, decls)
    ensures !Conflicting(decls) ==> r.Pass?
  {
    ghost var pre := Snapshot(packages);
    r, decls := SortAll(packages, vt, st, state);
    if r.Pass? {
      label Checking:
      r := CheckAndOverride(vt, st, state, packages, decls);
      forall j | 0 <= j < |packages| ensures packages[j].Data() == old@Checking(packages[j].Data()) {
        assert packages[j] != state;
      }
      assert NormalisedBefore(packages, |packages|, pre, decls);
    }
    if r.Fail? {
      FailureConflicting(r.error, decls);
    }
  }

  /** `ResolvePackages`: a fresh state labelled `parthenon::resolved_state`,
      built by phase 1 over every package (each is normalised in place on its
      turn), phase 2 and phase 3. `decls` are the packages' declarations once
      normalised; the packages hold them afterwards when nothing throws. */
  method ResolvePackages(packages: seq<StateDescriptor>) returns (r: Result<StateDescriptor>, ghost decls: seq<PackageData>)
    requires DistinctLabels(packages)
    requires forall i :: 0 <= i < |packages| ==> packages[i].Valid()
    modifies set p | p in packages
    ensures ValidatedFrom(old(Snapshot(packages)), decls)
    ensures r.Ok? ==> fresh(r.value) && r.value.Valid() && r.value.packageName == ResolvedLabel
    ensures r.Ok? ==> forall j :: 0 <= j < |packages| ==> packages[j].Data() == decls[j]
    ensures r.Ok? ==> ResolvedFrom(r.value, decls)
    ensures r.Err? ==> exists k :: 0 <= k <= |packages| && NormalisedBefore(packages, k, old(Snapshot(packages)), decls)
    ensures r.Err? ==> FailureFrom(r.error, decls)
    ensures !Conflicting(decls) ==> r.Ok?
  {
    var state := new StateDescriptor(ResolvedLabel);
    var vt := new DependencyTracker();
    var st := new DependencyTracker();
    var done;
    done, decls := Resolve(packages, vt, st, state);
    if done.Fail? {
      return Err(done.error), decls;
    }
    r := Ok(state);
  }
}
