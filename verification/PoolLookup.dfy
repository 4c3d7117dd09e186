/**
 * Which worker a text names: its ID, and otherwise its path. Stated through the workers that are
 * registered, not through the dictionaries.
 */
module PoolLookup {
  import opened Wrappers
  import opened DatabaseIds
  import opened PoolModel
  import opened PoolMaps
  import PoolSafety

  /** Some worker is registered. */
  ghost predicate SomeRegistered(p: Pool) {
    exists ref: nat | ref < |p.all| :: Registered(p, ref)
  }

  /** A registered worker has this ID. */
  ghost predicate IsIdInUse(p: Pool, id: string) {
    exists ref: nat | ref < |p.all| :: Registered(p, ref) && p.all[ref].id == id
  }

  /** The text is this registered worker's ID, or no ID in use and the canonical path is its own. */
  ghost predicate Names(p: Pool, database: string, canonical: string, ref: nat) {
    && ref < |p.all| && Registered(p, ref)
    && (p.all[ref].id == database || (!IsIdInUse(p, database) && p.all[ref].path == canonical))
  }

  lemma RegisteredExactly(p: Pool)
    requires KeysMatch(p)
    ensures SomeRegistered(p) <==> p.byPath != map[]
  {
    if p.byPath != map[] {
      var path :| path in p.byPath;
      assert Registered(p, p.byPath[path]);
    }
  }

  lemma IdInUseExactly(p: Pool, id: string)
    requires MapsInverse(p)
    ensures IsIdInUse(p, id) <==> id in p.idToPath
  {
    if id in p.idToPath {
      assert Registered(p, p.byPath[p.idToPath[id]]);
    }
  }

  /** A registered worker's ID finds it, whatever the text is as a path. */
  lemma LookupById(p: Pool, ref: nat, canonical: string)
    requires MapsInverse(p) && ref < |p.all| && Registered(p, ref) && p.all[ref].id != ""
    ensures Lookup(p, p.all[ref].id, canonical) == Ok(ref)
  {
  }

  /** Text that is no ID in use finds exactly the worker registered under its canonical path. */
  lemma LookupByPath(p: Pool, database: string, canonical: string, ref: nat)
    requires MapsInverse(p) && database != "" && !IsIdInUse(p, database)
    ensures Lookup(p, database, canonical) == Ok(ref) <==>
              ref < |p.all| && Registered(p, ref) && p.all[ref].path == canonical
  {
    IdInUseExactly(p, database);
  }

  lemma FoundExactly(p: Pool, database: string, canonical: string, ref: nat)
    requires MapsInverse(p)
    ensures Lookup(p, database, canonical) == Ok(ref) <==> database != "" && Names(p, database, canonical, ref)
  {
    if database != "" {
      if IsIdInUse(p, database) {
        IdInUseExactly(p, database);
        var holder: nat :| holder < |p.all| && Registered(p, holder) && p.all[holder].id == database;
        LookupById(p, holder, canonical);
      } else {
        LookupByPath(p, database, canonical, ref);
      }
    }
  }

  /** Where the dictionaries are inverse: who is found, and which error is given when nobody is. */
  lemma LookupExactly(p: Pool, database: string, canonical: string)
    requires MapsInverse(p)
    ensures var found := Lookup(p, database, canonical);
            && (forall ref: nat :: found == Ok(ref) <==> database != "" && Names(p, database, canonical, ref))
            && (found == Err(NoDatabase) <==> !SomeRegistered(p))
            && (found == Err(MissingDatabase) <==> SomeRegistered(p) && database == "")
            && (found == Err(NotFound) <==>
                  SomeRegistered(p) && database != "" && forall ref: nat :: !Names(p, database, canonical, ref))
            && found != Err(NotReady)
  {
    RegisteredExactly(p);
    forall ref: nat
      ensures Lookup(p, database, canonical) == Ok(ref) <==> database != "" && Names(p, database, canonical, ref)
    {
      FoundExactly(p, database, canonical, ref);
    }
  }

  /** A worker that is opening is reported as not ready, and a dead one as not there. */
  lemma ResolveExactly(p: Pool, database: string, canonical: string)
    requires MapsInverse(p)
    ensures var found := Resolve(p, database, canonical);
            && (forall ref: nat :: found == Ok(ref) <==>
                  database != "" && Names(p, database, canonical, ref) && p.all[ref].raw in {Idle, Busy})
            && (found == Err(NoDatabase) <==> !SomeRegistered(p))
            && (found == Err(MissingDatabase) <==> SomeRegistered(p) && database == "")
            && (found == Err(NotReady) <==>
                  exists ref: nat :: database != "" && Names(p, database, canonical, ref) && p.all[ref].raw == Starting)
            && (found == Err(NotFound) <==>
                  SomeRegistered(p) && database != ""
                  && forall ref: nat | Names(p, database, canonical, ref) :: p.all[ref].raw == Dead)
  {
    LookupExactly(p, database, canonical);
    var found := Lookup(p, database, canonical);
    if found.Ok? {
      assert Names(p, database, canonical, found.value);
    }
  }

  // ---- Over whole runs -------------------------------------------------------------------------

  /** The ID can be looked up and can travel in a URI. */
  predicate IsUsable(id: string) {
    id != "" && '/' !in id
  }

  ghost predicate UsableIds(p: Pool) {
    forall ref | 0 <= ref < |p.all| :: IsUsable(p.all[ref].id)
  }

  lemma ChosenIdIsUsable(p: Pool, r: OpenRequest)
    requires r.customId != "" ==> AcceptsCustomId(r.customId)
    ensures IsUsable(ChosenId(p, r))
  {
    RegisteredIdsAreSlashFree(p.idToPath.Keys, r.stem, r.customId, r.clock);
  }

  lemma NewIdIsUsable(p: Pool, r: OpenRequest)
    requires KeysMatch(p)
    ensures var q := Open(p, r).0; |q.all| == |p.all| || (|q.all| == |p.all| + 1 && IsUsable(q.all[|p.all|].id))
  {
    WithoutStaleKeepsKeys(p, r.canonical);
    if Open(p, r).1.Opening? {
      ChosenIdIsUsable(WithoutStale(p, r.canonical), r);
    }
  }

  lemma StepKeepsUsableIds(p: Pool, s: Step)
    requires KeysMatch(p) && UsableIds(p) && Enabled(p, s)
    ensures UsableIds(Apply(p, s))
  {
    ApplyKeepsKeys(p, s);
    if s.OpenDatabase? {
      NewIdIsUsable(p, s.r);
    } else {
      PoolSafety.OnlyOpenCreates(p, s);
    }
  }

  lemma {:induction false} RunKeepsUsableIds(p: Pool, steps: seq<Step>)
    requires KeysMatch(p) && UsableIds(p) && Legal(p, steps)
    ensures UsableIds(Run(p, steps))
    decreases |steps|
  {
    if steps != [] {
      ApplyKeepsKeys(p, steps[0]);
      StepKeepsUsableIds(p, steps[0]);
      RunKeepsUsableIds(Apply(p, steps[0]), steps[1..]);
    }
  }

  /** In every state of a coherent run, every registered worker is found under its ID. */
  lemma RegisteredIsFoundById(maxWorkers: Option<nat>, steps: seq<Step>, ref: nat, canonical: string)
    requires Legal(Initial(maxWorkers), steps) && CoherentRun(Initial(maxWorkers), steps)
    requires var p := Run(Initial(maxWorkers), steps); ref < |p.all| && Registered(p, ref)
    ensures var p := Run(Initial(maxWorkers), steps);
            && Lookup(p, p.all[ref].id, canonical) == Ok(ref)
            && (p.all[ref].raw in {Idle, Busy} ==> Resolve(p, p.all[ref].id, canonical) == Ok(ref))
  {
    RunExact(Initial(maxWorkers), steps);
    RunKeepsUsableIds(Initial(maxWorkers), steps);
    var p := Run(Initial(maxWorkers), steps);
    LookupById(p, ref, canonical);
  }

  /** And so does the ID read back from any URI of the scheme that was prefixed with it. */
  lemma PrefixedUriFindsItsWorker(
    maxWorkers: Option<nat>, steps: seq<Step>, ref: nat, canonical: string, scheme: string, rest: string)
    requires Legal(Initial(maxWorkers), steps) && CoherentRun(Initial(maxWorkers), steps)
    requires var p := Run(Initial(maxWorkers), steps); ref < |p.all| && Registered(p, ref)
    ensures var p := Run(Initial(maxWorkers), steps);
            var uri := scheme + "://" + rest;
            var (id, inner) := ExtractDbPrefix(PrefixUri(uri, p.all[ref].id, scheme), scheme);
            id.Some? && Lookup(p, id.value, canonical) == Ok(ref) && inner == uri
  {
    RegisteredIsFoundById(maxWorkers, steps, ref, canonical);
    RunKeepsUsableIds(Initial(maxWorkers), steps);
    var p := Run(Initial(maxWorkers), steps);
    PrefixThenExtract(scheme + "://" + rest, p.all[ref].id, scheme);
  }
}
