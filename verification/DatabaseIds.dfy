/** Database IDs and the resource URIs that carry them. */
module DatabaseIds {
  import opened Wrappers

  // ---- IDs ------------------------------------------------------------------------------

  const MAX_ID_LENGTH := 32

  predicate IsLower(c: char) { 'a' <= c <= 'z' }
  predicate IsDigit(c: char) { '0' <= c <= '9' }
  predicate IsIdChar(c: char) { IsLower(c) || IsDigit(c) || c == '_' }

  /** The pattern `[a-z][a-z0-9_]{0,31}`. */
  predicate IsDatabaseId(s: string) {
    1 <= |s| <= MAX_ID_LENGTH && IsLower(s[0]) && forall i | 0 <= i < |s| :: IsIdChar(s[i])
  }

  /** `$` matches at the end of the text, and also before a newline that ends it. */
  predicate AtDollar(s: string, n: nat) {
    n == |s| || (n == |s| - 1 && s[n] == '\n')
  }

  /** `_VALID_CUSTOM_ID.match`: some prefix of `s` matches the pattern, and `$` matches after it. */
  predicate AcceptsCustomId(s: string) {
    exists n | 1 <= n <= |s| :: IsDatabaseId(s[..n]) && AtDollar(s, n)
  }

  predicate EndsInNewline(s: string) {
    s != [] && s[|s| - 1] == '\n'
  }

  /** So the code accepts the promised IDs and, beyond them, exactly those followed by one newline. */
  lemma CustomIdExact(s: string)
    ensures IsDatabaseId(s) <==> AcceptsCustomId(s) && !EndsInNewline(s)
    ensures AcceptsCustomId(s) && !IsDatabaseId(s) <==> EndsInNewline(s) && IsDatabaseId(s[..|s| - 1])
  {
    if IsDatabaseId(s) {
      assert s[..|s|] == s && AtDollar(s, |s|);
    }
    if EndsInNewline(s) {
      assert !IsIdChar(s[|s| - 1]);
      if IsDatabaseId(s[..|s| - 1]) {
        assert AtDollar(s, |s| - 1);
      }
    }
    if n :| 1 <= n <= |s| && IsDatabaseId(s[..n]) && AtDollar(s, n) {
      assert n == |s| ==> s[..n] == s;
    }
  }

  function ReplaceOthers(s: string): (r: string)
    ensures |r| == |s| && forall i | 0 <= i < |r| :: IsIdChar(r[i])
  {
    seq(|s|, i requires 0 <= i < |s| => if IsIdChar(s[i]) then s[i] else '_')
  }

  /** Each run of underscores becomes one. */
  function Collapse(s: string): string {
    if s == [] then []
    else if s[0] == '_' && |s| > 1 && s[1] == '_' then Collapse(s[1..])
    else [s[0]] + Collapse(s[1..])
  }

  function StripUnderscores(s: string): (r: string)
    ensures r != [] ==> r[0] != '_' && r[|r| - 1] != '_'
  {
    if s == [] then []
    else if s[0] == '_' then StripUnderscores(s[1..])
    else if s[|s| - 1] == '_' then StripUnderscores(s[..|s| - 1])
    else s
  }

  /** `_normalize_id`, from the lower-cased stem. */
  function NormalizeId(lowered: string): string {
    var core := StripUnderscores(Collapse(ReplaceOthers(lowered)));
    var named := if core != [] && IsDigit(core[0]) then "db_" + core else core;
    var full := if named == [] then "db" else named;
    if |full| > MAX_ID_LENGTH then full[..MAX_ID_LENGTH] else full
  }

  /** Whatever the stem, and whatever lower-casing made of it, the ID has the documented shape. */
  lemma NormalizedIdIsValid(lowered: string)
    ensures IsDatabaseId(NormalizeId(lowered))
  {
    var core := StripUnderscores(Collapse(ReplaceOthers(lowered)));
    assert AllIdChars(core) by {
      CollapseKeepsIdChars(ReplaceOthers(lowered));
      StripKeepsIdChars(Collapse(ReplaceOthers(lowered)));
    }
    var named := if core != [] && IsDigit(core[0]) then "db_" + core else core;
    var full := if named == [] then "db" else named;
    assert AllIdChars(full) && IsLower(full[0]);
  }

  predicate AllIdChars(s: string) {
    forall i | 0 <= i < |s| :: IsIdChar(s[i])
  }

  lemma {:induction false} CollapseKeepsIdChars(s: string)
    requires AllIdChars(s)
    ensures AllIdChars(Collapse(s))
  {
    if s != [] {
      CollapseKeepsIdChars(s[1..]);
    }
  }

  lemma {:induction false} StripKeepsIdChars(s: string)
    requires AllIdChars(s)
    ensures AllIdChars(StripUnderscores(s))
  {
    if s == [] {
    } else if s[0] == '_' {
      StripKeepsIdChars(s[1..]);
    } else if s[|s| - 1] == '_' {
      StripKeepsIdChars(s[..|s| - 1]);
    }
  }

  /** The documented pattern, character by character. */
  lemma DatabaseIdExactly(s: string)
    ensures IsDatabaseId(s) <==>
              && 1 <= |s| <= 32 && 'a' <= s[0] <= 'z'
              && forall i | 0 <= i < |s| :: 'a' <= s[i] <= 'z' || '0' <= s[i] <= '9' || s[i] == '_'
  {
    assert forall i | 0 <= i < |s| :: IsIdChar(s[i]) <==> 'a' <= s[i] <= 'z' || '0' <= s[i] <= '9' || s[i] == '_';
  }

  predicate NoDoubled(s: string) {
    forall i | 0 < i < |s| :: s[i] == '_' ==> s[i - 1] != '_'
  }

  /** Normalizing an ID that is already valid, has no doubled or final underscore, keeps it. */
  lemma NormalizeIdFixesIds(s: string)
    requires IsDatabaseId(s) && s[|s| - 1] != '_' && NoDoubled(s)
    ensures NormalizeId(s) == s
  {
    assert ReplaceOthers(s) == s;
    CollapseKeeps(s);
  }

  lemma {:induction false} CollapseKeeps(s: string)
    requires NoDoubled(s)
    ensures Collapse(s) == s
  {
    if s != [] {
      assert forall i | 0 < i < |s[1..]| :: s[1..][i] == s[i + 1] && s[1..][i - 1] == s[i];
      CollapseKeeps(s[1..]);
    }
  }

  // ---- Picking an unused ID ----------------------------------------------------------------

  function Decimal(n: nat): (r: string)
    ensures r != []
  {
    var digit := ["0123456789"[n % 10]];
    if n < 10 then digit else Decimal(n / 10) + digit
  }

  lemma {:induction false} DecimalIsInjective(m: nat, n: nat)
    requires Decimal(m) == Decimal(n)
    ensures m == n
  {
    var dm, dn := Decimal(m), Decimal(n);
    assert dm[|dm| - 1] == "0123456789"[m % 10];
    assert dn[|dn| - 1] == "0123456789"[n % 10];
    assert m % 10 == n % 10;
    if m >= 10 && n >= 10 {
      assert dm[..|dm| - 1] == Decimal(m / 10) && dn[..|dn| - 1] == Decimal(n / 10);
      DecimalIsInjective(m / 10, n / 10);
    }
  }

  /** The number a decimal numeral stands for. */
  function Value(digits: string): int {
    if digits == [] then 0 else 10 * Value(digits[..|digits| - 1]) + (digits[|digits| - 1] as int - '0' as int)
  }

  /** Decimal numerals are those of their number, of digits only and without leading zeros. */
  lemma {:induction false} DecimalExactly(n: nat)
    ensures var digits := Decimal(n);
            && Value(digits) == n
            && (forall i | 0 <= i < |digits| :: '0' <= digits[i] <= '9')
            && (|digits| > 1 ==> digits[0] != '0')
    decreases n
  {
    var digit := "0123456789"[n % 10];
    assert '0' <= digit <= '9' && digit as int - '0' as int == n % 10;
    var digits := Decimal(n);
    if n < 10 {
      assert digits == [digit] && digits[..0] == [];
    } else {
      DecimalExactly(n / 10);
      assert digits == Decimal(n / 10) + [digit] && digits[..|digits| - 1] == Decimal(n / 10);
      assert n / 10 > 0 && (|Decimal(n / 10)| == 1 ==> Value(Decimal(n / 10)[..0]) == 0);
    }
  }

  const LAST_SUFFIX := 99

  /** The `i`-th candidate: the base itself, then `base_2` up to `base_99`. */
  function Candidate(base: string, i: nat): string {
    if i < 2 then base else base + "_" + Decimal(i)
  }

  predicate Taken(used: set<string>, base: string, i: nat) {
    Candidate(base, i) in used
  }

  /** The number of the first free candidate from `i` on, or 100 if there is none. */
  function FirstFree(used: set<string>, base: string, i: nat): (k: nat)
    requires i <= LAST_SUFFIX + 1
    ensures i <= k <= LAST_SUFFIX + 1
    ensures forall j | i <= j < k :: Taken(used, base, j)
    ensures k <= LAST_SUFFIX ==> !Taken(used, base, k)
    decreases LAST_SUFFIX + 1 - i
  {
    if i > LAST_SUFFIX || !Taken(used, base, i) then i else FirstFree(used, base, i + 1)
  }

  /** What is left when no candidate is free; `clock` is the time in milliseconds. */
  function Fallback(base: string, clock: nat): string {
    base + "_" + Decimal(clock % 100_000)
  }

  /** What `_unique_id` returns. */
  function UniqueId(used: set<string>, base: string, clock: nat): string {
    var k := FirstFree(used, base, 1);
    if k <= LAST_SUFFIX then Candidate(base, k) else Fallback(base, clock)
  }

  /** `_unique_id`, as the source runs it. */
  method PickUniqueId(idToPath: map<string, string>, base: string, clock: nat) returns (id: string)
    ensures id == UniqueId(idToPath.Keys, base, clock)
  {
    if base !in idToPath {
      return base;
    }
    for i := 2 to LAST_SUFFIX + 1
      invariant FirstFree(idToPath.Keys, base, 1) == FirstFree(idToPath.Keys, base, i)
    {
      var candidate := base + "_" + Decimal(i);
      if candidate !in idToPath {
        return candidate;
      }
    }
    return Fallback(base, clock);
  }

  /** The first free one of the base and the base with `_2` to `_99`, and the last resort if all are taken. */
  lemma PickedIdIsFirstFree(used: set<string>, base: string, clock: nat)
    ensures var id := UniqueId(used, base, clock);
            if base !in used then id == base
            else if forall j | 2 <= j <= 99 :: base + "_" + Decimal(j) in used then
              id == base + "_" + Decimal(clock % 100_000)
            else
              exists k | 2 <= k <= 99 ::
                && id == base + "_" + Decimal(k) && id !in used
                && forall j | 2 <= j < k :: base + "_" + Decimal(j) in used
  {
    var k := FirstFree(used, base, 1);
    assert base in used <==> Taken(used, base, 1);
    assert forall j | 2 <= j <= 99 :: base + "_" + Decimal(j) in used <==> Taken(used, base, j);
    if base in used && k <= 99 {
      assert !Taken(used, base, k);
      assert forall j | 2 <= j < k :: base + "_" + Decimal(j) in used;
      assert base + "_" + Decimal(k) !in used;
    }
  }

  function Candidates(base: string, n: nat): set<string> {
    set i | 1 <= i <= n :: Candidate(base, i)
  }

  lemma CandidatesDiffer(base: string, i: nat, j: nat)
    requires 1 <= i < j
    ensures Candidate(base, i) != Candidate(base, j)
  {
    if i >= 2 && Candidate(base, i) == Candidate(base, j) {
      assert Decimal(i) == Candidate(base, i)[|base| + 1..];
      assert Decimal(j) == Candidate(base, j)[|base| + 1..];
      DecimalIsInjective(i, j);
    } else if i < 2 {
      assert |Candidate(base, j)| > |base|;
    }
  }

  lemma {:induction false} CandidateCount(base: string, n: nat)
    ensures |Candidates(base, n)| == n
  {
    if n == 0 {
      assert Candidates(base, 0) == {};
    } else {
      CandidateCount(base, n - 1);
      forall i | 1 <= i <= n - 1 ensures Candidate(base, i) != Candidate(base, n) {
        CandidatesDiffer(base, i, n);
      }
      assert Candidate(base, n) !in Candidates(base, n - 1);
      assert Candidates(base, n) == Candidates(base, n - 1) + {Candidate(base, n)};
    }
  }

  lemma AllTaken(used: set<string>, base: string)
    ensures Candidates(base, LAST_SUFFIX) <= used <==> FirstFree(used, base, 1) > LAST_SUFFIX
  {
    var k := FirstFree(used, base, 1);
    if k > LAST_SUFFIX {
      forall c | c in Candidates(base, LAST_SUFFIX) ensures c in used {
        var i :| 1 <= i <= LAST_SUFFIX && c == Candidate(base, i);
        assert Taken(used, base, i);
      }
    } else {
      assert !Taken(used, base, k) && Candidate(base, k) in Candidates(base, LAST_SUFFIX);
    }
  }

  lemma SubsetIsSmaller<T>(a: set<T>, b: set<T>)
    requires a <= b
    ensures |a| <= |b|
  {
    assert b == a + (b - a);
  }

  /** An ID in use is picked exactly when all 99 candidates are taken and so is the fallback. */
  lemma UniqueIdExact(used: set<string>, base: string, clock: nat)
    ensures UniqueId(used, base, clock) in used <==>
              Candidates(base, LAST_SUFFIX) <= used && Fallback(base, clock) in used
  {
    AllTaken(used, base);
    var k := FirstFree(used, base, 1);
    assert k <= LAST_SUFFIX ==> !Taken(used, base, k);
  }

  /** With fewer than 99 IDs in use, one of the 99 candidates is free and is the one picked. */
  lemma UniqueIdIsUnused(used: set<string>, base: string, clock: nat)
    requires |used| < LAST_SUFFIX
    ensures UniqueId(used, base, clock) !in used
  {
    UniqueIdExact(used, base, clock);
    CandidateCount(base, LAST_SUFFIX);
    if Candidates(base, LAST_SUFFIX) <= used {
      SubsetIsSmaller(Candidates(base, LAST_SUFFIX), used);
      assert false;
    }
  }

  function Tens(digits: nat): nat {
    if digits == 0 then 1 else 10 * Tens(digits - 1)
  }

  lemma {:induction false} DecimalDigits(n: nat, digits: nat)
    requires 1 <= digits && n < Tens(digits)
    ensures |Decimal(n)| <= digits && AllIdChars(Decimal(n))
    decreases digits
  {
    assert IsIdChar("0123456789"[n % 10]);
    if n >= 10 {
      DecimalDigits(n / 10, digits - 1);
    }
  }

  /** What the picked ID has after the base, the `k`-th candidate being the first free one. */
  function Suffix(k: nat, clock: nat): (suffix: string) {
    if k < 2 then [] else "_" + Decimal(if k <= LAST_SUFFIX then k else clock % 100_000)
  }

  lemma PickedIdShape(used: set<string>, base: string, clock: nat)
    ensures UniqueId(used, base, clock) == base + Suffix(FirstFree(used, base, 1), clock)
  {
    var k := FirstFree(used, base, 1);
    var digits := Decimal(if k <= LAST_SUFFIX then k else clock % 100_000);
    if k < 2 {
      assert base + [] == base;
    } else {
      assert base + "_" + digits == base + ("_" + digits);
    }
  }

  lemma SuffixShape(k: nat, clock: nat)
    requires 1 <= k
    ensures AllIdChars(Suffix(k, clock))
    ensures |Suffix(k, clock)| == if k < 2 then 0 else if k <= 9 then 2 else if k <= LAST_SUFFIX then 3
                                  else 1 + |Decimal(clock % 100_000)|
    ensures |Suffix(k, clock)| <= 6
  {
    assert Tens(2) == 100 && Tens(5) == 100_000;
    DecimalDigits(clock % 100_000, 5);
    if 2 <= k <= LAST_SUFFIX {
      DecimalDigits(k, 2);
      DecimalLength(k);
    }
  }

  lemma DecimalLength(n: nat)
    requires 1 <= n < 100
    ensures |Decimal(n)| == if n < 10 then 1 else 2
  {
    if n >= 10 {
      assert Decimal(n) == Decimal(n / 10) + ["0123456789"[n % 10]];
    }
  }

  /** A candidate numbered from `low` to `high` is free. */
  predicate SomeFree(used: set<string>, base: string, low: nat, high: nat) {
    exists i | low <= i <= high :: !Taken(used, base, i)
  }

  /** The picked ID keeps within 32 characters, from what is known before it is picked. */
  predicate PickFits(used: set<string>, base: string, clock: nat) {
    || base !in used
    || (|base| <= 30 && SomeFree(used, base, 2, 9))
    || (|base| <= 29 && SomeFree(used, base, 10, LAST_SUFFIX))
    || (!SomeFree(used, base, 2, LAST_SUFFIX) && |Fallback(base, clock)| <= MAX_ID_LENGTH)
  }

  lemma SuffixFits(used: set<string>, base: string, clock: nat)
    requires |base| <= MAX_ID_LENGTH
    ensures |base| + |Suffix(FirstFree(used, base, 1), clock)| <= MAX_ID_LENGTH <==> PickFits(used, base, clock)
  {
    var k := FirstFree(used, base, 1);
    SuffixShape(k, clock);
    assert Taken(used, base, 1) <==> base in used;
    assert SomeFree(used, base, 2, 9) ==> k <= 9;
    assert k <= LAST_SUFFIX ==> !Taken(used, base, k);
  }

  /**
   * The suffix is not counted against the 32 characters. A picked ID matches the documented
   * pattern exactly when the base is free, or it leaves room for the suffix of the first free
   * candidate, or, with all candidates taken, for that of the fallback.
   */
  lemma PickedIdExact(used: set<string>, base: string, clock: nat)
    requires IsDatabaseId(base)
    ensures IsDatabaseId(UniqueId(used, base, clock)) <==> PickFits(used, base, clock)
  {
    var suffix := Suffix(FirstFree(used, base, 1), clock);
    var id := base + suffix;
    PickedIdShape(used, base, clock);
    SuffixShape(FirstFree(used, base, 1), clock);
    SuffixFits(used, base, clock);
    assert forall i | 0 <= i < |id| :: IsIdChar(id[i]);
  }

  /** So it always does for a base of at most 26 characters, and never for one in use of 31 or 32. */
  lemma PickedIdByLength(used: set<string>, base: string, clock: nat)
    requires IsDatabaseId(base)
    ensures |base| <= 26 ==> PickFits(used, base, clock)
    ensures |base| >= 31 && base in used ==> !PickFits(used, base, clock)
  {
    assert Tens(5) == 100_000;
    DecimalDigits(clock % 100_000, 5);
    assert |Decimal(clock % 100_000)| >= 1;
  }

  /** The bound is sharp: once the 99 candidates are taken, the fallback can repeat one of them. */
  lemma UniqueIdCanRepeat(base: string, clock: nat)
    requires 2 <= clock % 100_000 <= LAST_SUFFIX
    ensures |Candidates(base, LAST_SUFFIX)| == LAST_SUFFIX
    ensures UniqueId(Candidates(base, LAST_SUFFIX), base, clock) in Candidates(base, LAST_SUFFIX)
  {
    CandidateCount(base, LAST_SUFFIX);
    AllTaken(Candidates(base, LAST_SUFFIX), base);
    assert Candidate(base, clock % 100_000) in Candidates(base, LAST_SUFFIX);
  }

  // ---- Resource URIs -------------------------------------------------------------------------

  const SEPARATOR := "://"

  /** `prefix_uri`. */
  function PrefixUri(uri: string, id: string, scheme: string): string {
    var prefix := scheme + SEPARATOR;
    if prefix <= uri then prefix + id + "/" + uri[|prefix|..] else uri
  }

  /** Python's `str.find` for one character. */
  function Find(s: string, c: char): (i: int)
    ensures -1 <= i < |s|
    ensures i >= 0 ==> s[i] == c && c !in s[..i]
    ensures i < 0 ==> c !in s
  {
    if s == [] then -1
    else if s[0] == c then 0
    else
      var i := Find(s[1..], c);
      assert i >= 0 ==> s[..i + 1] == [s[0]] + s[1..][..i];
      assert s == [s[0]] + s[1..];
      if i < 0 then -1 else i + 1
  }

  /** `extract_db_prefix`. */
  function ExtractDbPrefix(uri: string, scheme: string): (Option<string>, string) {
    var prefix := scheme + SEPARATOR;
    if !(prefix <= uri) then (None, uri)
    else
      var rest := uri[|prefix|..];
      var slash := Find(rest, '/');
      if slash <= 0 then (None, uri)
      else (Some(rest[..slash]), prefix + rest[slash + 1..])
  }

  /** The two forms of a URI of the scheme: without a database, and with one. Others are left alone. */
  lemma PrefixExactly(uri: string, id: string, scheme: string)
    ensures forall rest: string | uri == scheme + "://" + rest ::
              PrefixUri(uri, id, scheme) == scheme + "://" + id + "/" + rest
    ensures !(scheme + "://" <= uri) ==> PrefixUri(uri, id, scheme) == uri
  {
    forall rest: string | uri == scheme + "://" + rest
      ensures PrefixUri(uri, id, scheme) == scheme + "://" + id + "/" + rest
    {
      assert uri[|scheme + "://"|..] == rest;
    }
  }

  /** A database is found exactly where a non-empty text and a slash follow the scheme. */
  lemma ExtractExactly(uri: string, scheme: string)
    ensures var (id, inner) := ExtractDbPrefix(uri, scheme);
            && (id.Some? ==> '/' !in id.value && id.value != "")
            && (id.Some? ==> exists rest: string ::
                  uri == scheme + "://" + id.value + "/" + rest && inner == scheme + "://" + rest)
            && (id.None? ==> inner == uri)
    ensures ExtractDbPrefix(uri, scheme).0.Some? <==>
              scheme + "://" <= uri && var path := uri[|scheme + "://"|..]; '/' in path && path[0] != '/'
  {
    var prefix := scheme + "://";
    if prefix <= uri {
      var path := uri[|prefix|..];
      var slash := Find(path, '/');
      if slash > 0 {
        assert path == path[..slash] + "/" + path[slash + 1..];
        assert uri == prefix + path;
        assert uri == scheme + "://" + path[..slash] + "/" + path[slash + 1..];
      }
    }
  }

  lemma PrefixThenExtract(uri: string, id: string, scheme: string)
    requires scheme + SEPARATOR <= uri
    requires id != [] && '/' !in id
    ensures ExtractDbPrefix(PrefixUri(uri, id, scheme), scheme) == (Some(id), uri)
  {
    var prefix := scheme + SEPARATOR;
    var tail := uri[|prefix|..];
    var rest := id + "/" + tail;
    assert PrefixUri(uri, id, scheme) == prefix + rest;
    assert prefix <= prefix + rest && (prefix + rest)[|prefix|..] == rest;
    assert prefix + tail == uri;
    var slash := Find(rest, '/');
    assert rest[|id|] == '/' && rest[..|id|] == id;
    assert slash == |id|;
    assert rest[|id| + 1..] == tail;
  }

  lemma ExtractThenPrefix(uri: string, scheme: string)
    ensures var (id, inner) := ExtractDbPrefix(uri, scheme);
            id.Some? ==> id.value != [] && '/' !in id.value && PrefixUri(inner, id.value, scheme) == uri
  {
    var prefix := scheme + SEPARATOR;
    if prefix <= uri {
      var rest := uri[|prefix|..];
      var slash := Find(rest, '/');
      if slash > 0 {
        assert (prefix + rest[slash + 1..])[|prefix|..] == rest[slash + 1..];
        assert rest == rest[..slash] + "/" + rest[slash + 1..];
        assert uri == prefix + rest;
      }
    }
  }

  lemma IdCharsHaveNoSlash(s: string)
    requires AllIdChars(s)
    ensures '/' !in s
  {
  }

  lemma CustomIdIsSlashFree(custom: string)
    requires AcceptsCustomId(custom)
    ensures custom != [] && '/' !in custom
  {
    CustomIdExact(custom);
    if IsDatabaseId(custom) {
      IdCharsHaveNoSlash(custom);
    } else {
      var id := custom[..|custom| - 1];
      IdCharsHaveNoSlash(id);
      assert custom == id + ['\n'];
    }
  }

  lemma PickedIdIsSlashFree(used: set<string>, base: string, clock: nat)
    requires base != [] && AllIdChars(base)
    ensures UniqueId(used, base, clock) != [] && '/' !in UniqueId(used, base, clock)
  {
    var k := FirstFree(used, base, 1);
    PickedIdShape(used, base, clock);
    SuffixShape(k, clock);
    IdCharsHaveNoSlash(base);
    IdCharsHaveNoSlash(Suffix(k, clock));
  }

  /** Every ID the pool registers from a valid stem or a custom ID can travel in a URI. */
  lemma RegisteredIdsAreSlashFree(used: set<string>, lowered: string, custom: string, clock: nat)
    ensures AcceptsCustomId(custom) ==> custom != [] && '/' !in custom
    ensures var id := UniqueId(used, NormalizeId(lowered), clock); id != [] && '/' !in id
  {
    if AcceptsCustomId(custom) {
      CustomIdIsSlashFree(custom);
    }
    NormalizedIdIsValid(lowered);
    PickedIdIsSlashFree(used, NormalizeId(lowered), clock);
  }
}
