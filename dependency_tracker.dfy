/** The per-run bookkeeping of `ResolvePackages`: which names are provided,
    which are required, and which overridable candidates were seen. */
module DependencyTracking {
  import opened Meta
  import opened Errors

  /** What `Sort` asks its caller to do with a declaration it accepted:
      store it under `package::name`, store it under the bare name, or nothing yet. */
  datatype Route = ToPrivate | ToProvides | Deferred

  /** One classification subject: a plain field (`slot == -1`), one entry of a
      sparse field's list (`slot` is its index) or a swarm, declared by `package`. */
  datatype Decl = Decl(package: string, name: string, slot: int, meta: Metadata)

  /** The value of a tracker: its five collections. `sparseAdded` holds the
      (name, sparse id) pairs whose flag is true. */
  datatype Tracker = Tracker(
    provided: set<string>,
    depends: set<string>,
    overridableCount: map<string, int>,
    sparseAdded: set<(string, int)>,
    overridableMeta: map<string, seq<Metadata>>)

  const Empty: Tracker := Tracker({}, {}, map[], {}, map[])

  /** The effect of one `Overridable` declaration on the tracker. */
  function Overridden(t: Tracker, v: string, m: Metadata): Tracker
  {
    var first := v !in t.overridableMeta;
    var meta1 := if first then t.overridableMeta[v := [m]] else t.overridableMeta;
    var added1 := if first && m.sparse then t.sparseAdded + {(v, m.sparseId)} else t.sparseAdded;
    var append := m.sparse && (v, m.sparseId) !in added1;
    var meta2 := if append then meta1[v := meta1[v] + [m]] else meta1;
    var added2 := if append then added1 + {(v, m.sparseId)} else added1;
    var count := if v in t.overridableCount then t.overridableCount[v] else 0;
    t.(overridableMeta := meta2, sparseAdded := added2,
       overridableCount := t.overridableCount[v := count + 1])
  }

  /** `DependencyTracker::Sort` on tracker values: the new tracker and the route,
      or the exception it throws. */
  function SortStep(t: Tracker, v: string, m: Metadata): Result<(Tracker, Route)>
  {
    match m.dependency
    case Private => Ok((t, ToPrivate))
    case Provides =>
      if v in t.provided then Err(DuplicateProvider(v))
      else Ok((t.(provided := t.provided + {v}), ToProvides))
    case Requires => Ok((t.(depends := t.depends + {v}), Deferred))
    case Overridable => Ok((Overridden(t, v, m), Deferred))
    case Unset => Err(UnknownDependency)
  }

  /** The candidate list `ms` of the overridable name `v`: non-empty and no
      longer than the name's counter; every candidate after the first is sparse;
      the sparse ids marked for `v` in `added` are exactly those of its sparse
      candidates; and no two sparse candidates share an id. */
  ghost predicate CandidatesConsistent(v: string, ms: seq<Metadata>, count: int, added: set<(string, int)>)
  {
    && 1 <= |ms| <= count
    && (forall i :: 1 <= i < |ms| ==> ms[i].sparse)
    && (forall i :: 0 <= i < |ms| && ms[i].sparse ==> (v, ms[i].sparseId) in added)
    && (forall id :: (v, id) in added ==> exists i :: 0 <= i < |ms| && ms[i].sparse && ms[i].sparseId == id)
    && (forall i, j :: 0 <= i < j < |ms| && ms[i].sparse ==> ms[i].sparseId != ms[j].sparseId)
  }

  /** The invariant every reachable tracker keeps: the counted names are those
      with candidates, each candidate list is consistent, and only names with
      candidates have marked sparse ids. */
  ghost predicate Consistent(t: Tracker)
  {
    && t.overridableMeta.Keys == t.overridableCount.Keys
    && (forall v :: v in t.overridableMeta ==>
          CandidatesConsistent(v, t.overridableMeta[v], t.overridableCount[v], t.sparseAdded))
    && (forall v, id :: (v, id) in t.sparseAdded ==> v in t.overridableMeta)
  }

  /** The names of the declarations in `ds` of dependency kind `k`. */
  ghost function NamesWith(ds: set<Decl>, k: Dependency): set<string>
  {
    set d | d in ds && d.meta.dependency == k :: d.name
  }

  /** No name is provided by two different declarations. */
  ghost predicate ProvidersUnique(ds: set<Decl>)
  {
    forall d1, d2 ::
      (d1 in ds && d2 in ds && d1.meta.dependency == Provides && d2.meta.dependency == Provides && d1.name == d2.name)
      ==> d1 == d2
  }

  /** The overridable declarations of `v` among `ds`. */
  ghost function OverridableDecls(ds: set<Decl>, v: string): set<Decl>
  {
    set d | d in ds && d.meta.dependency == Overridable && d.name == v
  }

  /** `m` is the metadata of some overridable declaration of `v` in `ds`. */
  ghost predicate OverridableMeta(ds: set<Decl>, v: string, m: Metadata)
  {
    exists d :: d in OverridableDecls(ds, v) && d.meta == m
  }

  /** `t` is the tracker after sorting the declarations `ds` without a throw:
      each name collection holds the names of one dependency kind, providers
      are unique, every candidate is the metadata of an overridable declaration
      of its name, every sparse overridable declaration has its (name, id) pair
      marked, and each counter is the number of overridable declarations of
      its name. */
  ghost predicate Tracks(t: Tracker, ds: set<Decl>)
  {
    && t.provided == NamesWith(ds, Provides)
    && t.depends == NamesWith(ds, Requires)
    && t.overridableCount.Keys == NamesWith(ds, Overridable)
    && ProvidersUnique(ds)
    && (forall v, k :: v in t.overridableMeta && 0 <= k < |t.overridableMeta[v]| ==>
          OverridableMeta(ds, v, t.overridableMeta[v][k]))
    && (forall d :: d in ds && d.meta.dependency == Overridable && d.meta.sparse ==>
          (d.name, d.meta.sparseId) in t.sparseAdded)
    && (forall v :: v in t.overridableCount ==> t.overridableCount[v] == |OverridableDecls(ds, v)|)
  }

  // ---------------------------------------------------------------------------
  // Properties of one Sort call

  /** A first overridable declaration of `v` starts its candidate list. */
  lemma OverriddenFirst(t: Tracker, v: string, m: Metadata)
    requires Consistent(t) && v !in t.overridableMeta
    ensures Consistent(Overridden(t, v, m))
  {
    var t' := Overridden(t, v, m);
    assert v !in t.overridableCount;
    assert t'.overridableMeta == t.overridableMeta[v := [m]];
    assert t'.overridableCount == t.overridableCount[v := 1];
    assert t'.sparseAdded == if m.sparse then t.sparseAdded + {(v, m.sparseId)} else t.sparseAdded;
    var ms := [m];
    forall id | (v, id) in t'.sparseAdded
      ensures exists i :: 0 <= i < |ms| && ms[i].sparse && ms[i].sparseId == id
    {
      assert (v, id) !in t.sparseAdded;
      assert ms[0] == m;
    }
    assert CandidatesConsistent(v, ms, 1, t'.sparseAdded);
  }

  /** A later declaration of `v` that adds no candidate only counts. */
  lemma OverriddenCounted(t: Tracker, v: string, m: Metadata)
    requires Consistent(t) && v in t.overridableMeta
    requires !m.sparse || (v, m.sparseId) in t.sparseAdded
    ensures Consistent(Overridden(t, v, m))
  {
    var t' := Overridden(t, v, m);
    assert t'.overridableMeta == t.overridableMeta && t'.sparseAdded == t.sparseAdded;
    assert t'.overridableCount == t.overridableCount[v := t.overridableCount[v] + 1];
  }

  /** A later sparse declaration of `v` with a new id appends a candidate. */
  lemma OverriddenAppended(t: Tracker, v: string, m: Metadata)
    requires Consistent(t) && v in t.overridableMeta
    requires m.sparse && (v, m.sparseId) !in t.sparseAdded
    ensures Consistent(Overridden(t, v, m))
  {
    var t' := Overridden(t, v, m);
    var old_ := t.overridableMeta[v];
    assert t'.overridableMeta == t.overridableMeta[v := old_ + [m]];
    assert t'.sparseAdded == t.sparseAdded + {(v, m.sparseId)};
    assert t'.overridableCount == t.overridableCount[v := t.overridableCount[v] + 1];
    forall i | 0 <= i < |old_| && old_[i].sparse
      ensures old_[i].sparseId != m.sparseId
    {
      assert (v, old_[i].sparseId) in t.sparseAdded;
    }
    var ms := old_ + [m];
    forall id | (v, id) in t'.sparseAdded
      ensures exists i :: 0 <= i < |ms| && ms[i].sparse && ms[i].sparseId == id
    {
      if id == m.sparseId {
        assert ms[|old_|] == m;
      } else {
        var i :| 0 <= i < |old_| && old_[i].sparse && old_[i].sparseId == id;
        assert ms[i] == old_[i];
      }
    }
    assert CandidatesConsistent(v, ms, t'.overridableCount[v], t'.sparseAdded);
  }

  /** Every Sort call keeps the tracker invariant. */
  lemma SortKeepsConsistent(t: Tracker, v: string, m: Metadata)
    requires Consistent(t)
    requires SortStep(t, v, m).Ok?
    ensures Consistent(SortStep(t, v, m).value.0)
  {
    if m.dependency == Overridable {
      if v !in t.overridableMeta {
        OverriddenFirst(t, v, m);
      } else if !m.sparse || (v, m.sparseId) in t.sparseAdded {
        OverriddenCounted(t, v, m);
      } else {
        OverriddenAppended(t, v, m);
      }
    }
  }

  /** Adding one declaration adds its name to the names of its kind only. */
  lemma NamesWithAdd(ds: set<Decl>, d: Decl, j: Dependency)
    ensures NamesWith(ds + {d}, j) == NamesWith(ds, j) + (if d.meta.dependency == j then {d.name} else {})
  {
    assert forall e :: e in ds + {d} && e.meta.dependency == j ==> e in ds || e == d;
  }

  /** A provider whose name is not yet provided keeps providers unique. */
  lemma ProvidersUniqueAdd(ds: set<Decl>, d: Decl)
    requires ProvidersUnique(ds)
    requires d.meta.dependency == Provides ==> d.name !in NamesWith(ds, Provides)
    ensures ProvidersUnique(ds + {d})
  {
  }

  /** Adding one declaration adds it to the overridable declarations of its
      name only, when it is overridable. */
  lemma OverridableDeclsAdd(ds: set<Decl>, d: Decl, w: string)
    ensures OverridableDecls(ds + {d}, w) ==
      OverridableDecls(ds, w) + (if d.meta.dependency == Overridable && d.name == w then {d} else {})
  {
  }

  /** A name with no overridable declaration has none to count. */
  lemma OverridableDeclsNone(ds: set<Decl>, w: string)
    requires w !in NamesWith(ds, Overridable)
    ensures OverridableDecls(ds, w) == {}
  {
  }

  /** The overridable part of `Tracks` after one more overridable declaration. */
  lemma OverriddenTracks(t: Tracker, ds: set<Decl>, d: Decl)
    requires Tracks(t, ds) && d !in ds && d.meta.dependency == Overridable
    ensures var t' := Overridden(t, d.name, d.meta);
      && (forall v, k :: v in t'.overridableMeta && 0 <= k < |t'.overridableMeta[v]| ==>
            OverridableMeta(ds + {d}, v, t'.overridableMeta[v][k]))
      && (forall e :: e in ds + {d} && e.meta.dependency == Overridable && e.meta.sparse ==>
            (e.name, e.meta.sparseId) in t'.sparseAdded)
      && (forall v :: v in t'.overridableCount ==> t'.overridableCount[v] == |OverridableDecls(ds + {d}, v)|)
  {
    OverriddenCandidates(t, ds, d);
    OverriddenCounts(t, ds, d);
  }

  /** Every candidate the tracker holds after `d` comes from an overridable
      declaration of `ds + {d}`. */
  lemma OverriddenCandidates(t: Tracker, ds: set<Decl>, d: Decl)
    requires Tracks(t, ds) && d.meta.dependency == Overridable
    ensures var t' := Overridden(t, d.name, d.meta);
      forall v, k :: v in t'.overridableMeta && 0 <= k < |t'.overridableMeta[v]| ==>
        OverridableMeta(ds + {d}, v, t'.overridableMeta[v][k])
  {
    var t' := Overridden(t, d.name, d.meta);
    var v, m := d.name, d.meta;
    assert d in OverridableDecls(ds + {d}, v);
    forall w, k | w in t'.overridableMeta && 0 <= k < |t'.overridableMeta[w]|
      ensures OverridableMeta(ds + {d}, w, t'.overridableMeta[w][k])
    {
      OverridableDeclsAdd(ds, d, w);
      if w != v || (v in t.overridableMeta && k < |t.overridableMeta[v]|) {
        assert t'.overridableMeta[w][k] == t.overridableMeta[w][k];
        var e :| e in OverridableDecls(ds, w) && e.meta == t.overridableMeta[w][k];
        assert e in OverridableDecls(ds + {d}, w);
      } else {
        assert t'.overridableMeta[w][k] == m;
      }
    }
  }

  /** Every counter the tracker holds after `d`, which `ds` does not contain,
      counts the overridable declarations of `ds + {d}` under its name. */
  lemma OverriddenCounts(t: Tracker, ds: set<Decl>, d: Decl)
    requires Tracks(t, ds) && d !in ds && d.meta.dependency == Overridable
    ensures var t' := Overridden(t, d.name, d.meta);
      forall v :: v in t'.overridableCount ==> t'.overridableCount[v] == |OverridableDecls(ds + {d}, v)|
  {
    var t' := Overridden(t, d.name, d.meta);
    forall w | w in t'.overridableCount
      ensures t'.overridableCount[w] == |OverridableDecls(ds + {d}, w)|
    {
      OverridableDeclsAdd(ds, d, w);
      if w == d.name && d.name !in t.overridableCount {
        OverridableDeclsNone(ds, d.name);
      }
    }
  }

  /** Sorting one more declaration keeps the tracker a summary of everything
      sorted so far, counters and candidates included. */
  lemma SortTracks(t: Tracker, ds: set<Decl>, d: Decl)
    requires Tracks(t, ds) && d !in ds
    requires SortStep(t, d.name, d.meta).Ok?
    ensures Tracks(SortStep(t, d.name, d.meta).value.0, ds + {d})
  {
    NamesWithAdd(ds, d, Provides);
    NamesWithAdd(ds, d, Requires);
    NamesWithAdd(ds, d, Overridable);
    ProvidersUniqueAdd(ds, d);
    if d.meta.dependency == Overridable {
      OverriddenTracks(t, ds, d);
    } else {
      NotOverriddenTracks(t, ds, d);
    }
  }

  /** The overridable part of `Tracks` after one more declaration of another kind. */
  lemma NotOverriddenTracks(t: Tracker, ds: set<Decl>, d: Decl)
    requires Tracks(t, ds) && d.meta.dependency != Overridable
    ensures forall v, k :: v in t.overridableMeta && 0 <= k < |t.overridableMeta[v]| ==>
      OverridableMeta(ds + {d}, v, t.overridableMeta[v][k])
    ensures forall v :: v in t.overridableCount ==> t.overridableCount[v] == |OverridableDecls(ds + {d}, v)|
  {
    forall w ensures OverridableDecls(ds + {d}, w) == OverridableDecls(ds, w) {
      OverridableDeclsAdd(ds, d, w);
    }
    forall w, k | w in t.overridableMeta && 0 <= k < |t.overridableMeta[w]|
      ensures OverridableMeta(ds + {d}, w, t.overridableMeta[w][k])
    {
      assert OverridableMeta(ds, w, t.overridableMeta[w][k]);
      var e :| e in OverridableDecls(ds, w) && e.meta == t.overridableMeta[w][k];
      assert e in OverridableDecls(ds + {d}, w);
    }
  }

  /** When Sort throws, the throw is the unknown-kind one, or the declaration
      is a second provider of a name some sorted declaration provides. */
  lemma SortThrows(t: Tracker, ds: set<Decl>, d: Decl)
    requires Tracks(t, ds)
    requires SortStep(t, d.name, d.meta).Err?
    ensures || (SortStep(t, d.name, d.meta).error == UnknownDependency && d.meta.dependency == Unset)
            || (SortStep(t, d.name, d.meta).error == DuplicateProvider(d.name) && d.meta.dependency == Provides &&
                exists d' :: d' in ds && d'.meta.dependency == Provides && d'.name == d.name)
  {
    if d.meta.dependency == Provides {
      assert d.name in NamesWith(ds, Provides);
    }
  }

  /** Over a tracker that summarises `ds`, a name is provided exactly when a
      declaration provides it, and then by exactly one declaration. */
  lemma ProvidedByDeclaration(t: Tracker, ds: set<Decl>, v: string)
    requires Tracks(t, ds)
    ensures v in t.provided <==> exists d :: d in ds && d.meta.dependency == Provides && d.name == v
    ensures forall d1, d2 ::
      (d1 in ds && d2 in ds && d1.meta.dependency == Provides && d2.meta.dependency == Provides &&
       d1.name == v && d2.name == v) ==> d1 == d2
  {
  }

  // ---------------------------------------------------------------------------
  // The installs of CheckOverridable

  /** The candidates recorded for `v`; `overridable_meta[var]` yields an empty
      list for a name never recorded. */
  function CandidatesOf(t: Tracker, v: string): seq<Metadata>
  {
    if v in t.overridableMeta then t.overridableMeta[v] else []
  }

  /** `v` paired with each of `ms`, in order. */
  function Pairs(v: string, ms: seq<Metadata>): seq<(string, Metadata)>
  {
    seq(|ms|, k requires 0 <= k < |ms| => (v, ms[k]))
  }

  /** The (name, metadata) installs `CheckOverridable` makes when it visits the
      overridable names in the order `order`. */
  function Installs(t: Tracker, order: seq<string>): seq<(string, Metadata)>
  {
    if order == [] then []
    else
      var v := order[|order| - 1];
      Installs(t, order[..|order| - 1]) + (if v in t.provided then [] else Pairs(v, CandidatesOf(t, v)))
  }

  predicate Distinct(s: seq<string>)
  {
    forall i, j :: 0 <= i < j < |s| ==> s[i] != s[j]
  }

  /** An element of a sequence sits at some index of it. */
  lemma IndexOf<T>(s: seq<T>, x: T) returns (j: nat)
    requires x in s
    ensures j < |s| && s[j] == x
  {
    j :| 0 <= j < |s| && s[j] == x;
  }

  /** A pair is installed exactly when its name was visited, is not provided,
      and the metadata is one of the name's candidates. */
  lemma {:induction false} InstallsMembership(t: Tracker, order: seq<string>, x: (string, Metadata))
    ensures x in Installs(t, order) <==>
      x.0 in order && x.0 !in t.provided && x.1 in CandidatesOf(t, x.0)
  {
    if order != [] {
      var v := order[|order| - 1];
      var pre := order[..|order| - 1];
      InstallsMembership(t, pre, x);
      assert order == pre + [v];
      var tail := if v in t.provided then [] else Pairs(v, CandidatesOf(t, v));
      assert x in tail <==> x.0 == v && v !in t.provided && x.1 in CandidatesOf(t, v) by {
        if x in tail {
          var k := IndexOf(tail, x);
        }
        if x.0 == v && v !in t.provided && x.1 in CandidatesOf(t, v) {
          var k := IndexOf(CandidatesOf(t, v), x.1);
          assert tail[k] == x;
        }
      }
    }
  }

  /** No two installs of one name carry the same metadata, nor sparse
      metadata with the same id, and every install of a name after its first
      is sparse. */
  ghost predicate OneIdOnce(ins: seq<(string, Metadata)>)
  {
    forall i, j :: 0 <= i < j < |ins| && ins[i].0 == ins[j].0 ==>
      ins[i].1 != ins[j].1 && ins[j].1.sparse && (ins[i].1.sparse ==> ins[i].1.sparseId != ins[j].1.sparseId)
  }

  /** Over a consistent tracker and an order without repeats, the installs for
      one name are pairwise different and never carry two sparse metadata with
      the same id: exactly one candidate per distinct sparse id is installed. */
  lemma {:induction false} InstallsIdsDistinct(t: Tracker, order: seq<string>)
    requires Consistent(t)
    requires Distinct(order)
    ensures OneIdOnce(Installs(t, order))
  {
    if order != [] {
      var v := order[|order| - 1];
      var pre := order[..|order| - 1];
      assert Distinct(pre);
      InstallsIdsDistinct(t, pre);
      var head := Installs(t, pre);
      var tail := if v in t.provided then [] else Pairs(v, CandidatesOf(t, v));
      var ins := Installs(t, order);
      assert ins == head + tail;
      forall i, j | 0 <= i < j < |ins| && ins[i].0 == ins[j].0
        ensures ins[i].1 != ins[j].1 && ins[j].1.sparse && (ins[i].1.sparse ==> ins[i].1.sparseId != ins[j].1.sparseId)
      {
        if j < |head| {
          assert ins[i] == head[i] && ins[j] == head[j];
          assert OneIdOnce(head);
        } else if i < |head| {
          assert ins[i] == head[i];
          assert head[i] in head;
          InstallsMembership(t, pre, head[i]);
          assert false;
        } else {
          var ms := CandidatesOf(t, v);
          assert ins[i] == tail[i - |head|] && ins[j] == tail[j - |head|];
          assert v !in t.provided && ins[i] == (v, ms[i - |head|]) && ins[j] == (v, ms[j - |head|]);
          assert v in t.overridableMeta && ms == t.overridableMeta[v];
          var a, b := i - |head|, j - |head|;
          assert 0 <= a < b < |ms| && ms[b].sparse;
          if ms[a].sparse {
            assert t.overridableMeta[v][a].sparseId != t.overridableMeta[v][b].sparseId;
          }
        }
      }
    }
  }

  /** Every install is the metadata of an overridable declaration of its
      name, and that name is provided by no declaration. */
  lemma InstallsDeclared(t: Tracker, ds: set<Decl>, order: seq<string>, x: (string, Metadata))
    requires Tracks(t, ds) && x in Installs(t, order)
    ensures OverridableMeta(ds, x.0, x.1) && x.0 !in NamesWith(ds, Provides)
  {
    InstallsMembership(t, order, x);
    var k := IndexOf(CandidatesOf(t, x.0), x.1);
  }

  /** The id of every sparse overridable declaration of a visited, unprovided
      name is carried by one of that name's installs. */
  lemma InstallsCoverIds(t: Tracker, ds: set<Decl>, order: seq<string>, d: Decl)
    requires Consistent(t) && Tracks(t, ds)
    requires d in ds && d.meta.dependency == Overridable && d.meta.sparse
    requires d.name in order && d.name !in t.provided
    ensures exists m :: (d.name, m) in Installs(t, order) && m.sparse && m.sparseId == d.meta.sparseId
  {
    var v := d.name;
    assert (v, d.meta.sparseId) in t.sparseAdded;
    var ms := t.overridableMeta[v];
    assert CandidatesConsistent(v, ms, t.overridableCount[v], t.sparseAdded);
    var i :| 0 <= i < |ms| && ms[i].sparse && ms[i].sparseId == d.meta.sparseId;
    InstallsMembership(t, order, (v, ms[i]));
  }

  /** Over a consistent tracker, the names installed by a visit of every
      overridable name are exactly the overridable names nobody provides. */
  lemma InstalledNames(t: Tracker, order: seq<string>)
    requires Consistent(t)
    requires (set v | v in order) == t.overridableCount.Keys
    ensures (set x | x in Installs(t, order) :: x.0) == t.overridableCount.Keys - t.provided
  {
    var lhs := set x | x in Installs(t, order) :: x.0;
    forall v | v in lhs ensures v in t.overridableCount.Keys - t.provided {
      var x :| x in Installs(t, order) && x.0 == v;
      InstallsMembership(t, order, x);
      assert v in (set v | v in order);
    }
    forall v | v in t.overridableCount.Keys - t.provided ensures v in lhs {
      assert v in (set v | v in order);
      var x := (v, t.overridableMeta[v][0]);
      InstallsMembership(t, order, x);
    }
  }

  // ---------------------------------------------------------------------------
  // The tracker object

  /** `DependencyTracker`: one instance per namespace kind per resolution run. */
  class DependencyTracker {
    var provided: set<string>
    var depends: set<string>
    var overridableCount: map<string, int>
    var sparseAdded: set<(string, int)>
    var overridableMeta: map<string, seq<Metadata>>

    ghost function State(): Tracker
      reads this
    {
      Tracker(provided, depends, overridableCount, sparseAdded, overridableMeta)
    }

    ghost predicate Valid()
      reads this
    {
      Consistent(State())
    }

    constructor ()
      ensures State() == Empty && Valid()
    {
      provided, depends, overridableCount, sparseAdded, overridableMeta := {}, {}, map[], {}, map[];
    }

    /** The `Overridable` branch of `Sort`: records the first candidate of a
        name and every sparse id not seen before, and counts the declaration. */
    method Override(v: string, m: Metadata)
      modifies this
      ensures State() == Overridden(old(State()), v, m)
    {
      if v !in overridableMeta {
        overridableMeta := overridableMeta[v := [m]];
        if m.sparse {
          sparseAdded := sparseAdded + {(v, m.sparseId)};
        }
      }
      if m.sparse {
        if (v, m.sparseId) !in sparseAdded {
          overridableMeta := overridableMeta[v := overridableMeta[v] + [m]];
          sparseAdded := sparseAdded + {(v, m.sparseId)};
        }
      }
      var count := if v in overridableCount then overridableCount[v] else 0;
      overridableCount := overridableCount[v := count + 1];
    }

    /** Classifies one declaration; the caller performs the returned route. */
    method Sort(v: string, m: Metadata) returns (r: Result<Route>)
      requires Valid()
      modifies this
      ensures Valid()
      ensures SortStep(old(State()), v, m).Ok? ==>
        r == Ok(SortStep(old(State()), v, m).value.1) && State() == SortStep(old(State()), v, m).value.0
      ensures SortStep(old(State()), v, m).Err? ==>
        r == Err(SortStep(old(State()), v, m).error) && State() == old(State())
    {
      match m.dependency {
        case Private =>
          r := Ok(ToPrivate);
        case Provides =>
          if v in provided {
            return Err(DuplicateProvider(v));
          }
          provided := provided + {v};
          r := Ok(ToProvides);
        case Requires =>
          depends := depends + {v};
          r := Ok(Deferred);
        case Overridable =>
          Override(v, m);
          r := Ok(Deferred);
        case Unset =>
          r := Err(UnknownDependency);
      }
      if SortStep(old(State()), v, m).Ok? {
        SortKeepsConsistent(old(State()), v, m);
      }
    }

    /** Throws, naming it, for a required name that is not provided; passes
        exactly when every required name is provided. */
    method CheckRequires() returns (r: Outcome)
      ensures r.Pass? <==> depends <= provided
      ensures r.Fail? ==> r.error.UnsatisfiedRequirement? && r.error.name in depends - provided
    {
      var remaining := depends;
      while remaining != {}
        invariant remaining <= depends
        invariant depends - remaining <= provided
        decreases remaining
      {
        var v :| v in remaining;
        if v !in provided {
          return Fail(UnsatisfiedRequirement(v));
        }
        remaining := remaining - {v};
      }
      r := Pass;
    }

    /** Visits every overridable name once, in some order, and returns that
        order, the (name, metadata) installs in the order they are made, and the
        names it warns about (counted more than once, never provided). */
    method CheckOverridable() returns (order: seq<string>, installs: seq<(string, Metadata)>, warned: set<string>)
      ensures Distinct(order)
      ensures (set v | v in order) == overridableCount.Keys
      ensures installs == Installs(State(), order)
      ensures warned == set v | v in overridableCount && v !in provided && overridableCount[v] > 1
    {
      var remaining := overridableCount.Keys;
      order, installs, warned := [], [], {};
      while remaining != {}
        invariant remaining <= overridableCount.Keys
        invariant Distinct(order)
        invariant forall v :: v in order <==> v in overridableCount.Keys - remaining
        invariant installs == Installs(State(), order)
        invariant warned == set v | v in overridableCount.Keys - remaining && v !in provided && overridableCount[v] > 1
        decreases remaining
      {
        var v :| v in remaining;
        if v !in provided {
          if overridableCount[v] > 1 {
            warned := warned + {v};
          }
          var mvec := if v in overridableMeta then overridableMeta[v] else [];
          var k := 0;
          while k < |mvec|
            invariant 0 <= k <= |mvec|
            invariant installs == Installs(State(), order) + Pairs(v, mvec[..k])
          {
            assert Pairs(v, mvec[..k + 1]) == Pairs(v, mvec[..k]) + [(v, mvec[k])];
            installs := installs + [(v, mvec[k])];
            k := k + 1;
          }
          assert mvec[..k] == mvec;
        }
        assert (order + [v])[..|order|] == order;
        order := order + [v];
        remaining := remaining - {v};
      }
      assert (set v | v in order) == overridableCount.Keys;
    }

    /** `Provided`: whether some declaration sorted into the tracker provides
        `v`. */
    function Provided(v: string): (b: bool)
      reads this
      ensures forall ds: set<Decl> :: Tracks(State(), ds) ==>
        (b <==> exists d: Decl :: d in ds && d.meta.dependency == Provides && d.name == v)
    {
      v in provided
    }
  }
}
