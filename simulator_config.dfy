/**
  The physics overlay of the evaluator's run configuration: every entry of the
  `PHYSICS_SIMULATOR` section is written into the `SIMULATOR` section, a nested
  section field by field (one level deep), any other value wholesale.
 */
module SimulatorConfig {
  import opened Wrappers

  /** A configuration value: a nested `Config` section, or any other value
      (number, string, list, ...), which the overlay only ever copies whole. */
  datatype Value = Scalar(literal: string) | Section(fields: map<string, Value>)

  /** Why the overlay stops: `SIMULATOR[key]` is absent (a key error), or it is
      present but not a section, so a field cannot be assigned into it (a type error). */
  datatype MergeError = MissingSection(key: string) | NotASection(key: string)

  /** The two sections of a loaded run configuration that the overlay touches. */
  class RunConfig {
    var simulator: map<string, Value>
    var physicsSimulator: map<string, Value>

    constructor (simulator: map<string, Value>, physicsSimulator: map<string, Value>)
      ensures this.simulator == simulator && this.physicsSimulator == physicsSimulator
    {
      this.simulator := simulator;
      this.physicsSimulator := physicsSimulator;
    }
  }

  /** The value `SIMULATOR[k]` ends with when `current` is overridden by `override`:
      a section override is merged into a current section field by field, any
      other override replaces the current value. A non-empty section override
      onto a non-section is the failing case and leaves the value as it was. */
  function MergeEntry(current: Value, override: Value): (r: Value)
    ensures override.Scalar? ==> r == override
    ensures override.Section? && !current.Section? ==> r == current
    ensures override.Section? && current.Section? ==>
      && r.Section?
      && r.fields.Keys == current.fields.Keys + override.fields.Keys
      && (forall ik :: ik in override.fields ==> r.fields[ik] == override.fields[ik])
      && (forall ik :: ik in current.fields && ik !in override.fields ==> r.fields[ik] == current.fields[ik])
  {
    match override
    case Scalar(_) => override
    case Section(f) => if current.Section? then Section(current.fields + f) else current
  }

  /** Key `k` of the physics section makes the overlay raise: its value is a
      section with at least one field, so `SIMULATOR[k]` is indexed, and that
      entry is missing or is not a section. An empty section writes nothing
      and so never raises. */
  predicate Blocks(sim: map<string, Value>, phys: map<string, Value>, k: string)
  {
    && k in phys
    && phys[k].Section?
    && phys[k].fields != map[]
    && (k !in sim || !sim[k].Section?)
  }

  /** The overlay runs to completion. */
  predicate Mergeable(sim: map<string, Value>, phys: map<string, Value>)
  {
    forall k :: k in phys ==> !Blocks(sim, phys, k)
  }

  /** The `SIMULATOR` section after overlaying `phys` onto `sim`. A blocking key
      keeps its old value (the overlay raises before writing it). */
  function Overlay(sim: map<string, Value>, phys: map<string, Value>): (r: map<string, Value>)
    // a non-section override becomes the new value
    ensures forall k :: k in phys && phys[k].Scalar? ==> k in r && r[k] == phys[k]
    // keys the physics section does not name are left alone
    ensures forall k :: k in sim && k !in phys ==> k in r && r[k] == sim[k]
    // a section override copies each of its fields and keeps the other fields
    ensures forall k :: k in phys && phys[k].Section? && k in sim && sim[k].Section? ==>
      && k in r && r[k].Section?
      && r[k].fields.Keys == sim[k].fields.Keys + phys[k].fields.Keys
      && (forall ik :: ik in phys[k].fields ==> r[k].fields[ik] == phys[k].fields[ik])
      && (forall ik :: ik in sim[k].fields && ik !in phys[k].fields ==> r[k].fields[ik] == sim[k].fields[ik])
    // a section override never creates an entry, and a blocked entry stays as it was
    ensures forall k :: k in phys && phys[k].Section? && !(k in sim && sim[k].Section?) ==>
      (k in r <==> k in sim) && (k in sim ==> r[k] == sim[k])
    // the only keys are the old ones and those a non-section override writes
    ensures r.Keys == sim.Keys + (set k | k in phys && phys[k].Scalar?)
  {
    map k | k in sim.Keys + phys.Keys && (k in sim || phys[k].Scalar?) ::
      if k in phys && k in sim then MergeEntry(sim[k], phys[k])
      else if k in phys then phys[k]
      else sim[k]
  }

  /** `m` and `m'` agree at key `k`: both lack it, or both hold the same value. */
  predicate EqualOnKey(m: map<string, Value>, m': map<string, Value>, k: string)
  {
    (k !in m && k !in m') || (k in m && k in m' && m[k] == m'[k])
  }

  /** Overlaying a second time changes nothing. */
  lemma OverlayIdempotent(sim: map<string, Value>, phys: map<string, Value>)
    ensures Overlay(Overlay(sim, phys), phys) == Overlay(sim, phys)
  {
    var once := Overlay(sim, phys);
    var twice := Overlay(once, phys);
    forall k | k in once && k in phys && phys[k].Section? && once[k].Section?
      ensures twice[k] == once[k]
    {
      assert once[k].fields + phys[k].fields == once[k].fields;
    }
    assert twice.Keys == once.Keys;
  }

  /** When the first overlay succeeds, a second one on its result succeeds too. */
  lemma OverlayStaysMergeable(sim: map<string, Value>, phys: map<string, Value>)
    requires Mergeable(sim, phys)
    ensures Mergeable(Overlay(sim, phys), phys)
  {
  }

  /** The documented example: a scalar is replaced, a section is merged and its
      untouched field survives. */
  lemma OverlayExample()
    ensures
      var sim := map["A" := Scalar("1"), "B" := Section(map["x" := Scalar("1"), "y" := Scalar("2")])];
      var phys := map["A" := Scalar("9"), "B" := Section(map["x" := Scalar("8")])];
      Mergeable(sim, phys) &&
      Overlay(sim, phys) == map["A" := Scalar("9"), "B" := Section(map["x" := Scalar("8"), "y" := Scalar("2")])]
  {
    var sim := map["A" := Scalar("1"), "B" := Section(map["x" := Scalar("1"), "y" := Scalar("2")])];
    var phys := map["A" := Scalar("9"), "B" := Section(map["x" := Scalar("8")])];
    var expected := map["A" := Scalar("9"), "B" := Section(map["x" := Scalar("8"), "y" := Scalar("2")])];
    assert sim["B"].fields + phys["B"].fields == expected["B"].fields;
    assert Overlay(sim, phys).Keys == expected.Keys;
  }

  /** The entry a key ends with depends only on that key's old entry, so the
      keys can be overlaid one at a time, in any order. */
  lemma OverlayIsPerKey(sim: map<string, Value>, sim': map<string, Value>, phys: map<string, Value>, k: string)
    requires EqualOnKey(sim, sim', k)
    ensures EqualOnKey(Overlay(sim, phys), Overlay(sim', phys), k)
    ensures Blocks(sim, phys, k) == Blocks(sim', phys, k)
  {
  }

  /**
    One pass of the overlay loop: writes `config.physicsSimulator[k]` into
    `config.simulator`, a section field by field in an unspecified order, any
    other value wholesale. Fails, writing nothing, when a non-empty section
    meets a missing or non-section entry.
   */
  method OverwriteKey(config: RunConfig, k: string) returns (outcome: Outcome<MergeError>)
    requires k in config.physicsSimulator
    modifies config
    ensures config.physicsSimulator == old(config.physicsSimulator)
    ensures outcome.Pass? <==> !Blocks(old(config.simulator), config.physicsSimulator, k)
    ensures outcome.Fail? ==>
      && outcome.error.key == k
      && (outcome.error.MissingSection? <==> k !in old(config.simulator))
      && config.simulator == old(config.simulator)
    ensures outcome.Pass? ==>
      EqualOnKey(config.simulator, Overlay(old(config.simulator), config.physicsSimulator), k)
    ensures forall j :: j != k ==> EqualOnKey(config.simulator, old(config.simulator), j)
  {
    var phys := config.physicsSimulator;
    ghost var target := Overlay(config.simulator, phys);
    if phys[k].Scalar? {
      config.simulator := config.simulator[k := phys[k]];
    } else if phys[k].fields != map[] {
      var fields := phys[k].fields;
      if k !in config.simulator {
        return Fail(MissingSection(k));
      }
      if !config.simulator[k].Section? {
        return Fail(NotASection(k));
      }
      ghost var visited := config.simulator;
      var section := config.simulator[k].fields;
      ghost var base := section;
      assert config.simulator == visited[k := Section(section)];
      var innerPending := fields.Keys;
      while innerPending != {}
        invariant innerPending <= fields.Keys
        invariant config.physicsSimulator == phys
        invariant config.simulator == visited[k := Section(section)]
        invariant section.Keys == base.Keys + (fields.Keys - innerPending)
        invariant forall ik :: ik in fields && ik !in innerPending ==> section[ik] == fields[ik]
        invariant forall ik :: ik in base && (ik !in fields || ik in innerPending) ==> section[ik] == base[ik]
        decreases innerPending
      {
        var ik :| ik in innerPending;
        section := section[ik := fields[ik]];
        config.simulator := config.simulator[k := Section(section)];
        innerPending := innerPending - {ik};
      }
      assert section == base + fields;
      assert target[k] == MergeEntry(visited[k], phys[k]);
    } else if k in config.simulator && config.simulator[k].Section? {
      assert config.simulator[k].fields + phys[k].fields == config.simulator[k].fields;
    }
    return Pass;
  }

  /**
    Overwrites `config.simulator` with `config.physicsSimulator`, key by key in
    an unspecified order. On success the new section is the overlay; on failure
    the overlay has been applied to the keys visited before the failing one,
    which is left as it was, and the remaining keys are untouched.
   */
  method OverwriteSimulatorConfig(config: RunConfig) returns (outcome: Outcome<MergeError>)
    modifies config
    ensures config.physicsSimulator == old(config.physicsSimulator)
    ensures outcome.Pass? <==> Mergeable(old(config.simulator), config.physicsSimulator)
    ensures outcome.Pass? ==> config.simulator == Overlay(old(config.simulator), config.physicsSimulator)
    ensures outcome.Fail? ==>
      && Blocks(old(config.simulator), config.physicsSimulator, outcome.error.key)
      && (outcome.error.MissingSection? <==> outcome.error.key !in old(config.simulator))
    ensures outcome.Fail? ==> forall k ::
      || EqualOnKey(config.simulator, old(config.simulator), k)
      || EqualOnKey(config.simulator, Overlay(old(config.simulator), config.physicsSimulator), k)
  {
    var phys := config.physicsSimulator;
    ghost var sim0 := config.simulator;
    ghost var target := Overlay(sim0, phys);
    var pending := phys.Keys;
    while pending != {}
      invariant pending <= phys.Keys
      invariant config.physicsSimulator == phys
      invariant forall k :: k !in pending ==> EqualOnKey(config.simulator, target, k)
      invariant forall k :: k in pending ==> EqualOnKey(config.simulator, sim0, k)
      invariant forall k :: k !in pending ==> !Blocks(sim0, phys, k)
      decreases pending
    {
      var k :| k in pending;
      ghost var visited := config.simulator;
      OverlayIsPerKey(visited, sim0, phys, k);
      outcome := OverwriteKey(config, k);
      if outcome.Fail? {
        return;
      }
      forall j | j in pending - {k}
        ensures EqualOnKey(config.simulator, sim0, j)
      {
        assert EqualOnKey(visited, sim0, j) && EqualOnKey(config.simulator, visited, j);
      }
      forall j | j !in pending - {k}
        ensures EqualOnKey(config.simulator, target, j)
      {
        if j != k {
          assert EqualOnKey(visited, target, j) && EqualOnKey(config.simulator, visited, j);
        }
      }
      pending := pending - {k};
    }
    forall j | j in config.simulator || j in target
      ensures j in config.simulator && j in target && config.simulator[j] == target[j]
    {
      assert EqualOnKey(config.simulator, target, j);
    }
    return Pass;
  }
}
