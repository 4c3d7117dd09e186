/**
 * The bounded cache of decompiled functions: an ordered dictionary from function to
 * (modification number, text), least recently used first. Over any history of calls, edits
 * and failing decompilations it answers as a decompiler without a cache would.
 */
module DecompileCache {
  import opened Wrappers

  /** A function: its program's unique ID and its entry offset. */
  datatype Key = Key(program: int, entry: int)

  datatype Entry = Entry(mod: int, code: string)

  const CACHE_SIZE := 8

  // ---- Ordered dictionaries --------------------------------------------------------------

  function Remove(s: seq<Key>, k: Key): seq<Key> {
    if s == [] then []
    else if s[0] == k then Remove(s[1..], k)
    else [s[0]] + Remove(s[1..], k)
  }

  /** Insert `k`, or move it, at the end. */
  function Touch(s: seq<Key>, k: Key): seq<Key> {
    Remove(s, k) + [k]
  }

  /** The last `CACHE_SIZE` keys. */
  function Newest(s: seq<Key>): seq<Key> {
    if |s| <= CACHE_SIZE then s else s[|s| - CACHE_SIZE..]
  }

  datatype Cache = Cache(order: seq<Key>, entries: map<Key, Entry>) {
    predicate Valid() {
      Distinct(order) && entries.Keys == set k | k in order
    }

    /** There is an entry for the function, of the program's current state. */
    predicate Hit(k: Key, mod: int) {
      k in entries && entries[k].mod == mod
    }
  }

  const EMPTY := Cache([], map[])

  /** A request: the function, the program's modification number, and what decompiling now yields. */
  datatype Request = Request(key: Key, mod: int, outcome: Result<string, string>)

  function Answer(c: Cache, r: Request): Result<string, string> {
    if c.Hit(r.key, r.mod) then Ok(c.entries[r.key].code) else r.outcome
  }

  function Stored(c: Cache, k: Key, e: Entry): Cache {
    Cache(Touch(c.order, k), c.entries[k := e])
  }

  function Trimmed(c: Cache): Cache {
    var order := Newest(c.order);
    Cache(order, map k | k in c.entries && k in order :: c.entries[k])
  }

  function After(c: Cache, r: Request): Cache {
    if c.Hit(r.key, r.mod) then c.(order := Touch(c.order, r.key))
    else if r.outcome.Err? then c
    else Trimmed(Stored(c, r.key, Entry(r.mod, r.outcome.value)))
  }

  // ---- The cache itself ----------------------------------------------------------------------

  /** `_DECOMPILE_CACHE` and `cached_decompile`. */
  class DecompileCache {
    var order: seq<Key>
    var entries: map<Key, Entry>

    function View(): Cache
      reads this
    {
      Cache(order, entries)
    }

    constructor ()
      ensures View() == EMPTY
    {
      order, entries := [], map[];
    }

    method MoveToEnd(k: Key)
      modifies this`order
      ensures order == Touch(old(order), k)
    {
      var kept: seq<Key> := [];
      var i := 0;
      while i < |order|
        invariant 0 <= i <= |order|
        invariant order == old(order)
        invariant kept + Remove(order[i..], k) == Remove(order, k)
      {
        if order[i] != k {
          kept := kept + [order[i]];
        }
        i := i + 1;
      }
      order := kept + [k];
    }

    /** Drop the least recently used entries until the cache fits. */
    method EvictOldest()
      requires View().Valid()
      modifies this
      ensures View() == Trimmed(old(View()))
    {
      ghost var stored := entries;
      assert entries == map k | k in stored && k in order :: stored[k];
      while |order| > CACHE_SIZE
        invariant Newest(order) == Newest(old(order)) && Distinct(order)
        invariant entries == map k | k in stored && k in order :: stored[k]
      {
        PopFirst(order, entries, stored);
        entries := entries - {order[0]};
        order := order[1..];
      }
    }

    /** `outcome` is what `decompile()` returns or raises if it is called. */
    method CachedDecompile(key: Key, mod: int, outcome: Result<string, string>)
      returns (answer: Result<string, string>, decompiled: bool)
      requires View().Valid()
      modifies this
      ensures answer == Answer(old(View()), Request(key, mod, outcome))
      ensures View() == After(old(View()), Request(key, mod, outcome))
      ensures decompiled == !old(View()).Hit(key, mod)
      ensures View().Valid()
    {
      AfterIsValid(View(), Request(key, mod, outcome));
      if key in entries && entries[key].mod == mod {
        MoveToEnd(key);
        return Ok(entries[key].code), false;
      }
      if outcome.Err? {
        return outcome, true;
      }
      StoredIsValid(View(), key, Entry(mod, outcome.value));
      entries := entries[key := Entry(mod, outcome.value)];
      MoveToEnd(key);
      EvictOldest();
      return outcome, true;
    }
  }

  lemma PopFirst(order: seq<Key>, entries: map<Key, Entry>, stored: map<Key, Entry>)
    requires order != [] && Distinct(order)
    requires entries == map k | k in stored && k in order :: stored[k]
    ensures entries - {order[0]} == map k | k in stored && k in order[1..] :: stored[k]
  {
    assert forall k :: k in order <==> k == order[0] || k in order[1..];
  }

  // ---- Touching ---------------------------------------------------------------------------------

  lemma Prepend(x: Key, s: seq<Key>)
    requires Distinct(s)
    ensures x !in s ==> Distinct([x] + s)
  {
    forall i, j | 0 <= i < j < |[x] + s| && x !in s
      ensures ([x] + s)[i] != ([x] + s)[j]
    {
      assert ([x] + s)[j] == s[j - 1];
    }
  }

  lemma {:induction false} RemoveKeys(s: seq<Key>, k: Key)
    requires Distinct(s)
    ensures Distinct(Remove(s, k))
    ensures forall x :: x in Remove(s, k) <==> x in s && x != k
    ensures |Remove(s, k)| == if k in s then |s| - 1 else |s|
    ensures k !in s ==> Remove(s, k) == s
  {
    if s != [] {
      RemoveKeys(s[1..], k);
      assert s == [s[0]] + s[1..];
      Prepend(s[0], Remove(s[1..], k));
    }
  }

  lemma TouchKeys(s: seq<Key>, k: Key)
    requires Distinct(s)
    ensures Distinct(Touch(s, k))
    ensures forall x :: x in Touch(s, k) <==> x in s || x == k
    ensures |Touch(s, k)| == if k in s then |s| else |s| + 1
  {
    RemoveKeys(s, k);
  }

  lemma {:induction false} RemoveSplits(a: seq<Key>, b: seq<Key>, k: Key)
    ensures Remove(a + b, k) == Remove(a, k) + Remove(b, k)
  {
    if a == [] {
      assert a + b == b;
    } else {
      assert (a + b)[1..] == a[1..] + b;
      RemoveSplits(a[1..], b, k);
    }
  }

  /** Trimming before touching loses nothing that trimming afterwards would keep. */
  lemma TouchNewest(s: seq<Key>, k: Key)
    requires Distinct(s)
    ensures Newest(Touch(Newest(s), k)) == Newest(Touch(s, k))
  {
    if |s| > CACHE_SIZE {
      var a, b := s[..|s| - CACHE_SIZE], Newest(s);
      assert s == a + b;
      RemoveSplits(a, b, k);
      RemoveKeys(a, k);
      RemoveKeys(b, k);
      assert Touch(s, k) == Remove(a, k) + Touch(b, k);
      if k in b {
        NewestOfLonger(a, Touch(b, k));
      } else {
        NewestOfLonger(Remove(a, k), b + [k]);
      }
    }
  }

  lemma NewestOfLonger(a: seq<Key>, b: seq<Key>)
    requires |b| >= CACHE_SIZE
    ensures Newest(a + b) == Newest(b)
  {
  }

  lemma StoredIsValid(c: Cache, k: Key, e: Entry)
    requires c.Valid()
    ensures Stored(c, k, e).Valid()
  {
    TouchKeys(c.order, k);
  }

  lemma TrimmedIsValid(c: Cache)
    requires c.Valid()
    ensures Trimmed(c).Valid()
  {
    assert forall k :: k in Newest(c.order) ==> k in c.order;
  }

  lemma AfterIsValid(c: Cache, r: Request)
    requires c.Valid()
    ensures After(c, r).Valid()
  {
    if c.Hit(r.key, r.mod) {
      TouchKeys(c.order, r.key);
    } else if r.outcome.Ok? {
      StoredIsValid(c, r.key, Entry(r.mod, r.outcome.value));
      TrimmedIsValid(Stored(c, r.key, Entry(r.mod, r.outcome.value)));
    }
  }

  // ---- Histories ----------------------------------------------------------------------------------

  function Last(h: seq<Request>): Request
    requires h != []
  {
    h[|h| - 1]
  }

  function Earlier(h: seq<Request>): seq<Request>
    requires h != []
  {
    h[..|h| - 1]
  }

  /** The cache after a history of requests; edits show as new modification numbers. */
  function Run(h: seq<Request>): Cache {
    if h == [] then EMPTY else After(Run(Earlier(h)), Last(h))
  }

  /** What the last request of a history is answered. */
  function Answered(h: seq<Request>): Result<string, string>
    requires h != []
  {
    Answer(Run(Earlier(h)), Last(h))
  }

  /** The functions successfully asked for, in order. */
  function Used(h: seq<Request>): seq<Key> {
    if h == [] then []
    else Used(Earlier(h)) + if Answered(h).Ok? then [Last(h).key] else []
  }

  /** The modification number of the last successful request for `k`. */
  function LastUse(h: seq<Request>, k: Key): Option<int> {
    if h == [] then None
    else if Last(h).key == k && Answered(h).Ok? then Some(Last(h).mod)
    else LastUse(Earlier(h), k)
  }

  /** The distinct keys of a list, by their last occurrence. */
  function Recency(keys: seq<Key>): seq<Key> {
    if keys == [] then [] else Touch(Recency(keys[..|keys| - 1]), keys[|keys| - 1])
  }

  /** `text` tells what each function decompiles to, in each state of its program. */
  predicate Determined(h: seq<Request>, text: (Key, int) -> string) {
    forall i :: 0 <= i < |h| && h[i].outcome.Ok? ==> h[i].outcome.value == text(h[i].key, h[i].mod)
  }

  /** Every entry was stored or served at the last use of its function. */
  predicate Dated(c: Cache, h: seq<Request>) {
    forall k :: k in c.entries ==> LastUse(h, k) == Some(c.entries[k].mod)
  }

  predicate Faithful(c: Cache, text: (Key, int) -> string) {
    forall k :: k in c.entries ==> c.entries[k].code == text(k, c.entries[k].mod)
  }

  lemma {:induction false} RecencyIsDistinct(keys: seq<Key>)
    ensures Distinct(Recency(keys))
    ensures forall k :: k in Recency(keys) <==> k in keys
  {
    if keys != [] {
      var earlier := keys[..|keys| - 1];
      RecencyIsDistinct(earlier);
      TouchKeys(Recency(earlier), keys[|keys| - 1]);
      assert keys == earlier + [keys[|keys| - 1]];
    }
  }

  /** Later in the order means used last at a later time. */
  lemma {:induction false} RecencyIsByLastUse(keys: seq<Key>, i: nat, j: nat) returns (a: nat, b: nat)
    requires i < j < |Recency(keys)|
    ensures a < b < |keys| && keys[a] == Recency(keys)[i] && keys[b] == Recency(keys)[j]
    ensures Recency(keys)[i] !in keys[a + 1..] && Recency(keys)[j] !in keys[b + 1..]
  {
    var n := |keys| - 1;
    var earlier, k := keys[..n], keys[n];
    var r := Recency(earlier);
    RecencyIsDistinct(earlier);
    RemoveKeys(r, k);
    if j == |Recency(keys)| - 1 {
      var x := Recency(keys)[i];
      assert x in Remove(r, k);
      b := n;
      a := LastIndex(earlier, x);
      assert keys[a + 1..] == earlier[a + 1..] + [k];
    } else {
      var i', j' := RemoveKeepsOrder(r, k, i, j);
      a, b := RecencyIsByLastUse(earlier, i', j');
      assert Recency(keys)[i] != k && Recency(keys)[j] != k by {
        assert Remove(r, k)[i] in Remove(r, k) && Remove(r, k)[j] in Remove(r, k);
      }
      assert keys[a + 1..] == earlier[a + 1..] + [k] && keys[b + 1..] == earlier[b + 1..] + [k];
    }
  }

  lemma {:induction false} LastIndex(keys: seq<Key>, k: Key) returns (a: nat)
    requires k in keys
    ensures a < |keys| && keys[a] == k && k !in keys[a + 1..]
  {
    var n := |keys| - 1;
    if keys[n] == k {
      a := n;
    } else {
      a := LastIndex(keys[..n], k);
      assert keys[a + 1..] == keys[..n][a + 1..] + [keys[n]];
    }
  }

  lemma {:induction false} RemoveKeepsOrder(s: seq<Key>, k: Key, i: nat, j: nat) returns (i': nat, j': nat)
    requires i < j < |Remove(s, k)|
    ensures i' < j' < |s| && s[i'] == Remove(s, k)[i] && s[j'] == Remove(s, k)[j]
  {
    if s[0] == k {
      i', j' := RemoveKeepsOrder(s[1..], k, i, j);
      i', j' := i' + 1, j' + 1;
    } else if i == 0 {
      j' := RemoveKeeps(s[1..], k, j - 1);
      i', j' := 0, j' + 1;
    } else {
      i', j' := RemoveKeepsOrder(s[1..], k, i - 1, j - 1);
      i', j' := i' + 1, j' + 1;
    }
  }

  lemma {:induction false} RemoveKeeps(s: seq<Key>, k: Key, j: nat) returns (j': nat)
    requires j < |Remove(s, k)|
    ensures j' < |s| && s[j'] == Remove(s, k)[j]
  {
    if s[0] == k {
      j' := RemoveKeeps(s[1..], k, j);
      j' := j' + 1;
    } else if j == 0 {
      j' := 0;
    } else {
      j' := RemoveKeeps(s[1..], k, j - 1);
      j' := j' + 1;
    }
  }

  // ---- The cache over histories -----------------------------------------------------------------

  lemma {:induction false} RunIsValid(h: seq<Request>)
    ensures Run(h).Valid()
  {
    if h != [] {
      RunIsValid(Earlier(h));
      AfterIsValid(Run(Earlier(h)), Last(h));
    }
  }

  lemma {:induction false} RunHoldsNewest(h: seq<Request>)
    ensures Run(h).order == Newest(Recency(Used(h)))
  {
    if h != [] {
      var c, r := Run(Earlier(h)), Last(h);
      var used := Used(Earlier(h));
      RunHoldsNewest(Earlier(h));
      RunIsValid(Earlier(h));
      RecencyIsDistinct(used);
      if Answered(h).Ok? {
        assert Used(h) == used + [r.key] && Used(h)[..|Used(h)| - 1] == used;
        TouchNewest(Recency(used), r.key);
        TouchKeys(c.order, r.key);
        assert c.Hit(r.key, r.mod) ==> r.key in c.order;
      } else {
        assert Used(h) == used;
      }
    }
  }

  /** The cache holds exactly the last at most 8 functions used, least recently used first. */
  lemma HoldsMostRecent(h: seq<Request>)
    ensures var order, recent := Run(h).order, Recency(Used(h));
            order == if |recent| <= 8 then recent else recent[|recent| - 8..]
  {
    RunHoldsNewest(h);
  }

  lemma {:induction false} RunIsDated(h: seq<Request>)
    ensures Dated(Run(h), h)
  {
    if h != [] {
      RunIsDated(Earlier(h));
    }
  }

  lemma {:induction false} RunIsFaithful(h: seq<Request>, text: (Key, int) -> string)
    requires Determined(h, text)
    ensures Faithful(Run(h), text)
  {
    if h != [] {
      RunIsFaithful(Earlier(h), text);
      assert h[|h| - 1] == Last(h);
    }
  }

  /**
   * Over every history, a request is answered with the text a fresh decompilation gives, or
   * with the error the decompilation fails with now; and only a cached text hides an error.
   */
  lemma CacheIsTransparent(h: seq<Request>, text: (Key, int) -> string)
    requires h != [] && Determined(h, text)
    ensures Answered(h).Ok? ==> Answered(h) == Ok(text(Last(h).key, Last(h).mod))
    ensures Last(h).outcome.Ok? ==> Answered(h) == Last(h).outcome
    ensures Answered(h) != Last(h).outcome ==>
              Last(h).outcome.Err? && LastUse(Earlier(h), Last(h).key) == Some(Last(h).mod)
  {
    RunIsFaithful(Earlier(h), text);
    RunIsDated(Earlier(h));
    assert h[|h| - 1] == Last(h);
  }

  lemma AmongNewest(s: seq<Key>, k: Key)
    ensures k in (if |s| <= 8 then s else s[|s| - 8..]) <==> exists i | 0 <= i < |s| :: |s| - 8 <= i && s[i] == k
  {
    var first := if |s| <= 8 then 0 else |s| - 8;
    assert forall i | first <= i < |s| :: s[first..][i - first] == s[i];
  }

  /**
   * A request decompiles unless its function is among the 8 most recently used and its program
   * has not changed since that use.
   */
  lemma DecompilesExactlyWhenNeeded(h: seq<Request>, k: Key, mod: int)
    ensures var recent := Recency(Used(h));
            Run(h).Hit(k, mod) <==>
              (exists i | 0 <= i < |recent| :: |recent| - 8 <= i && recent[i] == k) && LastUse(h, k) == Some(mod)
  {
    RunIsValid(h);
    HoldsMostRecent(h);
    RunIsDated(h);
    AmongNewest(Recency(Used(h)), k);
  }
}
