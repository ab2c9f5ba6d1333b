/** `StateDescriptor`: a package's (or the resolved state's) variable
    declarations, and the mutators the resolver writes through. */
module StateDescriptors {
  import opened Meta
  import opened Errors

  /** The declarations of one package as values: what `AllFields`,
      `AllSparseFields`, `AllSwarms` and `AllSwarmValues` give access to. */
  datatype PackageData = PackageData(
    packageName: string,
    fields: map<string, Metadata>,
    sparse: map<string, seq<Metadata>>,
    swarms: map<string, Metadata>,
    swarmValues: map<string, map<string, Metadata>>)

  /** `AllSwarmValues(swarm)` over a value map: the values registered for
      `swarm`, none if absent. */
  function ValuesOf(values: map<string, map<string, Metadata>>, swarm: string): map<string, Metadata>
  {
    if swarm in values then values[swarm] else map[]
  }

  /** Every entry of a list normalised. */
  function ValidatedList(ms: seq<Metadata>): seq<Metadata>
  {
    seq(|ms|, k requires 0 <= k < |ms| => Validated(ms[k]))
  }

  /** `ValidateMetadata` on package values: every plain field, every sparse
      entry and every swarm is normalised; swarm values are not visited. */
  function ValidatedData(d: PackageData): PackageData
  {
    d.(fields := map n | n in d.fields :: Validated(d.fields[n]),
       sparse := map n | n in d.sparse :: ValidatedList(d.sparse[n]),
       swarms := map n | n in d.swarms :: Validated(d.swarms[n]))
  }

  /** No declaration that Sort will see has an unset dependency. */
  ghost predicate AllSet(d: PackageData)
  {
    && (forall n :: n in d.fields ==> d.fields[n].dependency != Unset)
    && (forall n, k :: n in d.sparse && 0 <= k < |d.sparse[n]| ==> d.sparse[n][k].dependency != Unset)
    && (forall n :: n in d.swarms ==> d.swarms[n].dependency != Unset)
  }

  /** Normalisation is total (no unset kind survives), idempotent, and keeps
      every name, every list length and every non-dependency attribute. */
  lemma ValidatedDataProperties(d: PackageData)
    ensures AllSet(ValidatedData(d))
    ensures ValidatedData(ValidatedData(d)) == ValidatedData(d)
    ensures var v := ValidatedData(d);
      && v.packageName == d.packageName && v.swarmValues == d.swarmValues
      && v.fields.Keys == d.fields.Keys && v.sparse.Keys == d.sparse.Keys && v.swarms.Keys == d.swarms.Keys
      && (forall n :: n in d.sparse ==> |v.sparse[n]| == |d.sparse[n]|)
  {
    var v := ValidatedData(d);
    var w := ValidatedData(v);
    assert w.fields == v.fields;
    assert w.swarms == v.swarms;
    forall n | n in v.sparse ensures w.sparse[n] == v.sparse[n] {
      assert |w.sparse[n]| == |v.sparse[n]|;
    }
    assert w.sparse == v.sparse;
  }

  /** What `AddField`, `AddSwarm` and `AddSwarmValue` maintain: plain fields
      are not sparse, every sparse list is non-empty and sparse, every variant
      of a sparse list is `SparseEqual` to its first one, and values are only
      registered for existing swarms. */
  ghost predicate WellFormed(d: PackageData)
  {
    && (forall n :: n in d.fields ==> !d.fields[n].sparse)
    && (forall n :: n in d.sparse ==> |d.sparse[n]| > 0)
    && (forall n, k :: n in d.sparse && 0 <= k < |d.sparse[n]| ==> d.sparse[n][k].sparse)
    && HeadsAgree(d.sparse)
    && d.swarmValues.Keys <= d.swarms.Keys
  }

  /** Every variant of a sparse list is `SparseEqual` to the list's first one. */
  ghost predicate HeadsAgree(sparse: map<string, seq<Metadata>>)
  {
    forall n, k :: n in sparse && 0 <= k < |sparse[n]| ==> SparseEqual(sparse[n][0], sparse[n][k])
  }

  /** Appending a variant that agrees with the head, or starting a new list,
      keeps every list in agreement with its head. */
  lemma HeadsAgreeAdd(sparse: map<string, seq<Metadata>>, name: string, mvec: seq<Metadata>, m: Metadata)
    requires HeadsAgree(sparse)
    requires (name in sparse && mvec == sparse[name] && mvec != [] && SparseEqual(mvec[0], m)) ||
             (mvec == [] && SparseEqual(m, m))
    ensures HeadsAgree(sparse[name := mvec + [m]])
  {
    var s2 := sparse[name := mvec + [m]];
    forall n, k | n in s2 && 0 <= k < |s2[n]| ensures SparseEqual(s2[n][0], s2[n][k]) {
      if n == name && k == |mvec| {
        assert s2[n][k] == m;
        if mvec != [] {
          assert s2[n][0] == mvec[0];
        }
      } else if n == name {
        assert s2[n][0] == mvec[0] && s2[n][k] == mvec[k];
      }
    }
  }

  /** Normalising every list keeps every list in agreement with its head. */
  lemma HeadsAgreeValidated(sparse: map<string, seq<Metadata>>)
    requires HeadsAgree(sparse)
    ensures HeadsAgree(map n | n in sparse :: ValidatedList(sparse[n]))
  {
    var s2 := map n | n in sparse :: ValidatedList(sparse[n]);
    forall n, k | n in s2 && 0 <= k < |s2[n]| ensures SparseEqual(s2[n][0], s2[n][k]) {
      assert SparseEqual(sparse[n][0], sparse[n][k]);
    }
  }

  class StateDescriptor {
    const packageName: string
    var metadataMap: map<string, Metadata>
    var sparseMetadataMap: map<string, seq<Metadata>>
    var swarmMetadataMap: map<string, Metadata>
    var swarmValueMetadataMap: map<string, map<string, Metadata>>

    /** What `AddField`, `AddSwarm` and `AddSwarmValue` maintain. */
    ghost predicate Valid()
      reads this
    {
      WellFormed(Data())
    }

    ghost function Data(): PackageData
      reads this
    {
      PackageData(packageName, metadataMap, sparseMetadataMap, swarmMetadataMap, swarmValueMetadataMap)
    }

    /** The names bound as plain or sparse fields. */
    ghost function FieldNames(): set<string>
      reads this
    {
      metadataMap.Keys + sparseMetadataMap.Keys
    }

    /** `AllSwarmValues(swarm)`: the values registered for `swarm`, none if absent. */
    function SwarmValues(swarm: string): map<string, Metadata>
      reads this
    {
      ValuesOf(swarmValueMetadataMap, swarm)
    }

    /** `SwarmPresent(swarm)`. */
    predicate SwarmPresent(swarm: string)
      reads this
    {
      swarm in swarmMetadataMap
    }

    constructor (packageName: string)
      ensures this.packageName == packageName && Valid()
      ensures metadataMap == map[] && sparseMetadataMap == map[]
      ensures swarmMetadataMap == map[] && swarmValueMetadataMap == map[]
    {
      this.packageName := packageName;
      metadataMap, sparseMetadataMap := map[], map[];
      swarmMetadataMap, swarmValueMetadataMap := map[], map[];
    }

    /** `AddSwarm`: registers a new swarm; a second registration throws. */
    method AddSwarm(swarmName: string, m: Metadata) returns (r: Result<bool>)
      requires Valid()
      modifies this
      ensures Valid()
      ensures swarmName in old(swarmMetadataMap) ==> r == Err(DuplicateSwarm(swarmName)) && unchanged(this)
      ensures swarmName !in old(swarmMetadataMap) ==>
        && r == Ok(true)
        && swarmMetadataMap == old(swarmMetadataMap)[swarmName := m]
        && metadataMap == old(metadataMap) && sparseMetadataMap == old(sparseMetadataMap)
        && swarmValueMetadataMap == old(swarmValueMetadataMap)
    {
      if swarmName in swarmMetadataMap {
        return Err(DuplicateSwarm(swarmName));
      }
      swarmMetadataMap := swarmMetadataMap[swarmName := m];
      r := Ok(true);
    }

    /** `AddSwarmValue`: throws for an unregistered swarm or an existing value
        name; otherwise inserts exactly that one entry and reports `true`. */
    method AddSwarmValue(valueName: string, swarmName: string, m: Metadata) returns (r: Result<bool>)
      requires Valid()
      modifies this
      ensures Valid()
      ensures swarmName !in old(swarmMetadataMap) ==> r == Err(UnknownSwarm(swarmName)) && unchanged(this)
      ensures swarmName in old(swarmMetadataMap) && valueName in old(SwarmValues(swarmName)) ==>
        r == Err(DuplicateSwarmValue(valueName)) && unchanged(this)
      ensures swarmName in old(swarmMetadataMap) && valueName !in old(SwarmValues(swarmName)) ==>
        && r == Ok(true)
        && swarmValueMetadataMap == old(swarmValueMetadataMap)[swarmName := old(SwarmValues(swarmName))[valueName := m]]
        && metadataMap == old(metadataMap) && sparseMetadataMap == old(sparseMetadataMap)
        && swarmMetadataMap == old(swarmMetadataMap)
    {
      if swarmName !in swarmMetadataMap {
        return Err(UnknownSwarm(swarmName));
      }
      var values := SwarmValues(swarmName);
      if valueName in values {
        return Err(DuplicateSwarmValue(valueName));
      }
      swarmValueMetadataMap := swarmValueMetadataMap[swarmName := values[valueName := m]];
      r := Ok(true);
    }

    /** `AddField`. A sparse field is checked against the FIRST entry of its
        list only: a flag/shape mismatch throws, that entry's id is a silent
        no-op, any other id is appended (even one already further down the
        list). A plain field is first-registration-wins, stored with an empty
        association. */
    method AddField(fieldName: string, m: Metadata) returns (r: Result<bool>)
      requires Valid()
      modifies this
      ensures Valid()
      ensures swarmMetadataMap == old(swarmMetadataMap) && swarmValueMetadataMap == old(swarmValueMetadataMap)
      ensures r.Ok? ==> FieldNames() == old(FieldNames()) + {fieldName}
      ensures m.sparse && fieldName !in old(sparseMetadataMap) ==>
        r == Ok(true) && sparseMetadataMap == old(sparseMetadataMap)[fieldName := [m]] &&
        metadataMap == old(metadataMap)
      ensures m.sparse && fieldName in old(sparseMetadataMap) ==>
        var mvec := old(sparseMetadataMap)[fieldName];
        && (!SparseEqual(mvec[0], m) ==> r == Err(SparseMetadataMismatch) && unchanged(this))
        && (SparseEqual(mvec[0], m) && mvec[0].sparseId == m.sparseId ==> r == Ok(false) && unchanged(this))
        && (SparseEqual(mvec[0], m) && mvec[0].sparseId != m.sparseId ==>
              r == Ok(true) && sparseMetadataMap == old(sparseMetadataMap)[fieldName := mvec + [m]] &&
              metadataMap == old(metadataMap))
      ensures !m.sparse && fieldName in old(metadataMap) ==> r == Ok(false) && unchanged(this)
      ensures !m.sparse && fieldName !in old(metadataMap) ==>
        r == Ok(true) && metadataMap == old(metadataMap)[fieldName := m.(associated := "")] &&
        sparseMetadataMap == old(sparseMetadataMap)
    {
      if m.sparse {
        if fieldName in sparseMetadataMap {
          var mvec := sparseMetadataMap[fieldName];
          if !SparseEqual(mvec[0], m) {
            return Err(SparseMetadataMismatch);
          }
          if mvec[0].sparseId == m.sparseId {
            return Ok(false);
          }
          HeadsAgreeAdd(sparseMetadataMap, fieldName, mvec, m);
          sparseMetadataMap := sparseMetadataMap[fieldName := mvec + [m]];
        } else {
          HeadsAgreeAdd(sparseMetadataMap, fieldName, [], m);
          assert [] + [m] == [m];
          sparseMetadataMap := sparseMetadataMap[fieldName := [m]];
        }
      } else {
        // The source first self-associates an unassociated metadata with its
        // own name, then clears the association before storing it: the stored
        // copy always carries the empty association.
        if fieldName in metadataMap {
          return Ok(false);
        }
        metadataMap := metadataMap[fieldName := m.(associated := "")];
      }
      r := Ok(true);
    }

    /** Some stored plain or sparse metadata has any (or all) of `query` set. */
    ghost predicate AnyFlagged(query: seq<Flag>, matchAny: bool)
      reads this
    {
      || (exists n :: n in metadataMap && FlagsSet(metadataMap[n], query, matchAny))
      || (exists n, k :: n in sparseMetadataMap && 0 <= k < |sparseMetadataMap[n]| &&
            FlagsSet(sparseMetadataMap[n][k], query, matchAny))
    }

    /** `FlagsPresent`: a search over plain then sparse metadata with an early
        return. */
    method FlagsPresent(query: seq<Flag>, matchAny: bool) returns (b: bool)
      ensures b <==> AnyFlagged(query, matchAny)
    {
      var names := metadataMap.Keys;
      while names != {}
        invariant names <= metadataMap.Keys
        invariant forall n :: n in metadataMap && n !in names ==> !FlagsSet(metadataMap[n], query, matchAny)
        decreases names
      {
        var n :| n in names;
        if FlagsSet(metadataMap[n], query, matchAny) {
          return true;
        }
        names := names - {n};
      }
      var sparseNames := sparseMetadataMap.Keys;
      while sparseNames != {}
        invariant sparseNames <= sparseMetadataMap.Keys
        invariant forall n, k :: n in sparseMetadataMap && n !in sparseNames && 0 <= k < |sparseMetadataMap[n]| ==>
          !FlagsSet(sparseMetadataMap[n][k], query, matchAny)
        decreases sparseNames
      {
        var n :| n in sparseNames;
        var mvec := sparseMetadataMap[n];
        var k := 0;
        while k < |mvec|
          invariant 0 <= k <= |mvec|
          invariant forall j :: 0 <= j < k ==> !FlagsSet(mvec[j], query, matchAny)
        {
          if FlagsSet(mvec[k], query, matchAny) {
            return true;
          }
          k := k + 1;
        }
        sparseNames := sparseNames - {n};
      }
      b := false;
    }

    /** `ValidateMetadata`: rewrites every unset dependency to `Provides`, in
        place. */
    method ValidateMetadata()
      requires Valid()
      modifies this
      ensures Valid()
      ensures Data() == ValidatedData(old(Data()))
    {
      HeadsAgreeValidated(sparseMetadataMap);
      metadataMap := map n | n in metadataMap :: Validated(metadataMap[n]);
      sparseMetadataMap := map n | n in sparseMetadataMap :: ValidatedList(sparseMetadataMap[n]);
      swarmMetadataMap := map n | n in swarmMetadataMap :: Validated(swarmMetadataMap[n]);
    }
  }
}
