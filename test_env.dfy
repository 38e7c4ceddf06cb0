/**
 * The in-memory environment used by the engine's tests: a builder that
 * collects name/value pairs through successive `set` calls, and the
 * environment it builds, which answers lookups from that map.
 */
module TestEnvironment {
  import opened Wrappers

  /** `TestEnv`: a finished, read-only environment. */
  datatype TestEnv = TestEnv(envVars: map<string, string>) {

    /** `read_env`: the value stored under `name`, if any. */
    function ReadEnv(name: string): (r: Option<string>)
      ensures r.Some? <==> name in envVars
      ensures r.Some? ==> r.value == envVars[name]
    {
      if name in envVars then Some(envVars[name]) else None
    }
  }

  /** `TestEnvBuilder`: the map is updated in place by each `set`. */
  class TestEnvBuilder {
    var envVars: map<string, string>

    /** `TestEnv::builder()`: no variable is set yet. */
    constructor ()
      ensures envVars == map[]
    {
      envVars := map[];
    }

    /** `set`: a later value for the same name replaces the earlier one. */
    method Set(name: string, value: string)
      modifies this
      ensures envVars == old(envVars)[name := value]
    {
      envVars := envVars[name := value];
    }

    /** `build`: hands the collected map to the environment. */
    method Build() returns (env: TestEnv)
      ensures env.envVars == envVars
    {
      env := TestEnv(envVars);
    }
  }

  /**
   * The map a fresh builder holds after `Set(n, v)` for every pair `(n, v)`
   * of `sets`, in order (each `Set` is the map update its contract states).
   */
  function AfterSets(sets: seq<(string, string)>): map<string, string>
    decreases |sets|
  {
    if sets == [] then map[] else AfterSets(sets[..|sets| - 1])[sets[|sets| - 1].0 := sets[|sets| - 1].1]
  }

  /**
   * A fresh builder given `set(n, v)` for every pair of `sets`, in order,
   * then `build`: the environment holds exactly `AfterSets(sets)`.
   */
  method BuildFrom(sets: seq<(string, string)>) returns (env: TestEnv)
    ensures env == TestEnv(AfterSets(sets))
  {
    var b := new TestEnvBuilder();
    var i := 0;
    while i < |sets|
      invariant 0 <= i <= |sets|
      invariant b.envVars == AfterSets(sets[..i])
    {
      assert sets[..i + 1][..i] == sets[..i];
      b.Set(sets[i].0, sets[i].1);
      i := i + 1;
    }
    assert sets[..|sets|] == sets;
    env := b.Build();
  }

  /** A lookup returns the value of the last `set` of that name. */
  lemma {:induction false} ReadEnvReturnsLastSet(sets: seq<(string, string)>, i: nat)
    requires i < |sets|
    requires forall j :: i < j < |sets| ==> sets[j].0 != sets[i].0
    ensures TestEnv(AfterSets(sets)).ReadEnv(sets[i].0) == Some(sets[i].1)
    decreases |sets|
  {
    if i < |sets| - 1 {
      var prefix := sets[..|sets| - 1];
      assert forall j :: i < j < |prefix| ==> prefix[j] == sets[j];
      ReadEnvReturnsLastSet(prefix, i);
    }
  }

  /** A name that was never set is not found. */
  lemma {:induction false} ReadEnvMissesUnsetName(sets: seq<(string, string)>, name: string)
    requires forall j :: 0 <= j < |sets| ==> sets[j].0 != name
    ensures TestEnv(AfterSets(sets)).ReadEnv(name) == None
    decreases |sets|
  {
    if sets != [] {
      var prefix := sets[..|sets| - 1];
      assert forall j :: 0 <= j < |prefix| ==> prefix[j] == sets[j];
      ReadEnvMissesUnsetName(prefix, name);
    }
  }
}
