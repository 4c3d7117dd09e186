/** The IDs that opening a database registers, against the pattern they are documented to match. */
module PoolIds {
  import opened Wrappers
  import opened DatabaseIds
  import opened PoolModel

  /** The ID that an opening registers. */
  function RegisteredId(p: Pool, r: OpenRequest): string
    requires KeysMatch(p)
  {
    ChosenId(WithoutStale(p, r.canonical), r)
  }

  /** An opening enters its worker under exactly this ID and the requested path. */
  lemma OpeningRegisters(p: Pool, r: OpenRequest)
    requires KeysMatch(p) && Open(p, r).1.Opening?
    ensures var (q, outcome) := Open(p, r);
            && outcome.ref < |q.all| && Registered(q, outcome.ref)
            && q.all[outcome.ref].id == RegisteredId(p, r) && q.all[outcome.ref].path == r.canonical
            && RegisteredId(p, r) in q.idToPath && q.idToPath[RegisteredId(p, r)] == r.canonical
  {
  }

  /**
   * It matches the documented pattern exactly when, custom, it has no newline at its end, and,
   * automatic, the normalized file name has room for the suffix that the IDs in use call for.
   */
  lemma RegisteredIdExact(p: Pool, r: OpenRequest)
    requires KeysMatch(p) && Open(p, r).1.Opening?
    ensures IsDatabaseId(RegisteredId(p, r)) <==>
              if r.customId != "" then !EndsInNewline(r.customId)
              else PickFits(IdsInUse(p, r.canonical), NormalizeId(r.stem), r.clock)
  {
    if r.customId != "" {
      CustomIdExact(r.customId);
    } else {
      NormalizedIdIsValid(r.stem);
      PickedIdExact(IdsInUse(p, r.canonical), NormalizeId(r.stem), r.clock);
    }
  }

  /** Opening under `"a\n"` succeeds in an empty pool, and registers an ID the error message rules out. */
  lemma NewlineIdIsRegistered(path: string)
    ensures Open(Initial(None), CustomRequest(path, "a\n"))
         == (Pool([NewWorker("a\n", path, false, None)], map[path := 0], map["a\n" := path], None), Opening(0))
    ensures !IsDatabaseId("a\n")
  {
    var id := "a\n";
    assert id[..|id| - 1] == "a" && IsDatabaseId("a") && EndsInNewline(id);
    CustomIdExact(id);
    var p, r := Initial(None), CustomRequest(path, id);
    assert WithoutStale(p, path) == p && Open(p, r) == OpenNew(p, r);
    assert OpenNew(p, r) == (Register(p, r, id), Opening(0));
    assert [] + [NewWorker(id, path, false, None)] == [NewWorker(id, path, false, None)];
  }

  /** A request that leaves the ID to the pool. */
  function StemRequest(path: string, stem: string): OpenRequest {
    OpenRequest(path, stem, "", None, false, 0)
  }

  /**
   * Two files with the same long name, opened one after the other: the second worker's ID has
   * more than 32 characters.
   */
  lemma SecondLongStemOverflows(path: string, other: string, stem: string)
    requires path != other
    requires IsDatabaseId(stem) && |stem| >= 31 && stem[|stem| - 1] != '_' && NoDoubled(stem)
    ensures var p := Open(Initial(None), StemRequest(path, stem)).0;
            KeysMatch(p) && Open(p, StemRequest(other, stem)).1.Opening?
            && !IsDatabaseId(RegisteredId(p, StemRequest(other, stem)))
  {
    NormalizeIdFixesIds(stem);
    assert WithoutStale(Initial(None), path) == Initial(None);
    OpenKeepsKeys(Initial(None), StemRequest(path, stem));
    var p := Open(Initial(None), StemRequest(path, stem)).0;
    assert p == Pool([NewWorker(stem, path, false, None)], map[path := 0], map[stem := path], None);
    assert WithoutStale(p, other) == p;
    PickedIdExact(p.idToPath.Keys, stem, 0);
    PickedIdByLength(p.idToPath.Keys, stem, 0);
  }
}
