/**
 * Mach-O universal ("fat") headers: the detector that reads one, the writer it inverts, and
 * the selection of a slice by name.
 */
module FatHeader {
  import opened Wrappers

  type Byte = b: int | 0 <= b < 256
  type U32 = n: int | 0 <= n < 0x1_0000_0000

  const FAT_MAGIC: U32 := 0xCAFEBABE
  const FAT_MAGIC_64: U32 := 0xCAFEBABF
  const MAX_FAT_SLICES := 32

  /** The length of `struct fat_arch` and of `struct fat_arch_64`. */
  function EntrySize(wide: bool): nat {
    if wide then 32 else 20
  }

  function TableSize(wide: bool, count: nat): nat {
    if wide then 32 * count else 20 * count
  }

  function Magic(wide: bool): U32 {
    if wide then FAT_MAGIC_64 else FAT_MAGIC
  }

  // ---- Architecture names -----------------------------------------------------------------

  function CpuTypeName(cputype: U32): Option<string> {
    if cputype == 7 then Some("i386")
    else if cputype == 0x01000007 then Some("x86_64")
    else if cputype == 12 then Some("arm")
    else if cputype == 0x0100000C then Some("arm64")
    else if cputype == 0x0200000C then Some("arm64_32")
    else if cputype == 18 then Some("ppc")
    else if cputype == 0x01000012 then Some("ppc64")
    else None
  }

  function CpuSubtypeName(cputype: U32, sub: nat): Option<string> {
    if cputype == 0x01000007 && sub == 8 then Some("x86_64h")
    else if cputype == 0x0100000C && sub == 2 then Some("arm64e")
    else if cputype == 12 && sub == 9 then Some("armv7")
    else if cputype == 12 && sub == 11 then Some("armv7s")
    else if cputype == 12 && sub == 12 then Some("armv7k")
    else if cputype == 12 && sub == 6 then Some("armv6")
    else None
  }

  /** `_fat_slice_name`: the top 8 bits of the subtype hold feature flags and are ignored. */
  function FatSliceName(cputype: U32, cpusubtype: U32): Option<string> {
    if CpuTypeName(cputype).None? then None
    else
      var refined := CpuSubtypeName(cputype, cpusubtype % 0x100_0000);
      if refined.Some? then refined else CpuTypeName(cputype)
  }

  /**
   * A name tells the CPU type, and two subtypes share it exactly when, feature flags aside,
   * they are equal or neither of them has a name of its own.
   */
  lemma SameNameExactly(a: U32, b: U32, sub: U32, sub': U32)
    requires FatSliceName(a, sub).Some?
    ensures FatSliceName(a, sub) == FatSliceName(b, sub') <==>
              && a == b
              && (sub % 0x100_0000 == sub' % 0x100_0000
                  || (CpuSubtypeName(a, sub % 0x100_0000).None? && CpuSubtypeName(a, sub' % 0x100_0000).None?))
  {
    NameTellsType(a, sub);
    if FatSliceName(b, sub').Some? {
      NameTellsType(b, sub');
    }
  }

  function TypeOfName(name: string): U32 {
    if name == "i386" then 7
    else if name == "x86_64" || name == "x86_64h" then 0x01000007
    else if name == "arm64" || name == "arm64e" then 0x0100000C
    else if name == "arm64_32" then 0x0200000C
    else if name == "ppc" then 18
    else if name == "ppc64" then 0x01000012
    else 12
  }

  lemma NameTellsType(cputype: U32, cpusubtype: U32)
    requires FatSliceName(cputype, cpusubtype).Some?
    ensures TypeOfName(FatSliceName(cputype, cpusubtype).value) == cputype
  {
  }

  // ---- Big-endian words ------------------------------------------------------------------------

  function Word(s: seq<Byte>): U32
    requires |s| == 4
  {
    s[0] as int * 0x100_0000 + s[1] as int * 0x1_0000 + s[2] as int * 0x100 + s[3] as int
  }

  function Bytes(n: U32): (s: seq<Byte>)
    ensures |s| == 4
  {
    [n / 0x100_0000, n / 0x1_0000 % 256, n / 256 % 256, n % 256]
  }

  lemma WordOfBytes(n: U32)
    ensures Word(Bytes(n)) == n
  {
    assert n / 256 / 256 == n / 0x1_0000 && n / 0x1_0000 / 256 == n / 0x100_0000;
  }

  lemma BytesOfWord(s: seq<Byte>)
    requires |s| == 4
    ensures Bytes(Word(s)) == s
  {
    var a, b, c, d: int := s[0], s[1], s[2], s[3];
    HighByte(a, b, c, d);
    MiddleBytes(a, b, c, d);
  }

  lemma HighByte(a: nat, b: nat, c: nat, d: nat)
    requires b < 256 && c < 256 && d < 256
    ensures (a * 0x100_0000 + b * 0x1_0000 + c * 0x100 + d) / 0x100_0000 == a
    ensures (a * 0x100_0000 + b * 0x1_0000 + c * 0x100 + d) % 256 == d
  {
  }

  lemma MiddleBytes(a: nat, b: nat, c: nat, d: nat)
    requires b < 256 && c < 256 && d < 256
    ensures (a * 0x100_0000 + b * 0x1_0000 + c * 0x100 + d) / 0x1_0000 % 256 == b
    ensures (a * 0x100_0000 + b * 0x1_0000 + c * 0x100 + d) / 0x100 % 256 == c
  {
    var n := a * 0x100_0000 + b * 0x1_0000 + c * 0x100 + d;
    assert n / 0x1_0000 == a * 0x100 + b;
    assert n / 0x100 == (a * 0x100 + b) * 0x100 + c;
  }

  // ---- Writing a header -----------------------------------------------------------------------

  /** One table entry: the two fields that name the slice, and the bytes that place it. */
  datatype Arch = Arch(cputype: U32, cpusubtype: U32, placement: seq<Byte>)

  predicate Fits(a: Arch, wide: bool) {
    |a.placement| == EntrySize(wide) - 8
  }

  function Entry(a: Arch): seq<Byte> {
    Bytes(a.cputype) + Bytes(a.cpusubtype) + a.placement
  }

  function Table(arches: seq<Arch>): seq<Byte> {
    if arches == [] then [] else Entry(arches[0]) + Table(arches[1..])
  }

  function Header(arches: seq<Arch>, wide: bool): seq<Byte>
    requires |arches| <= MAX_FAT_SLICES
  {
    Bytes(Magic(wide)) + Bytes(|arches|) + Table(arches)
  }

  predicate AllFit(arches: seq<Arch>, wide: bool) {
    arches == [] || (Fits(arches[0], wide) && AllFit(arches[1..], wide))
  }

  function Name(a: Arch): Option<string> {
    FatSliceName(a.cputype, a.cpusubtype)
  }

  /** The names in order, if every architecture is recognised. */
  function Names(arches: seq<Arch>): (names: Option<seq<string>>)
    ensures names.Some? ==> |names.value| == |arches|
  {
    if arches == [] then Some([])
    else if Name(arches[0]).None? || Names(arches[1..]).None? then None
    else Some([Name(arches[0]).value] + Names(arches[1..]).value)
  }

  /** A well-formed header with 1 to 32 recognised slices. */
  predicate Recognised(arches: seq<Arch>, wide: bool) {
    1 <= |arches| <= MAX_FAT_SLICES && AllFit(arches, wide) && Names(arches).Some?
  }

  // ---- Reading a header --------------------------------------------------------------------------

  /** The names of a table's entries (a partial entry at the end, which no caller passes, is ignored). */
  function TableNames(raw: seq<Byte>, wide: bool): Option<seq<string>>
    decreases |raw|
  {
    if |raw| < EntrySize(wide) then Some([])
    else
      var first, rest := FatSliceName(Word(raw[..4]), Word(raw[4..8])), TableNames(raw[EntrySize(wide)..], wide);
      if first.None? then None else Prefixed([first.value], rest)
  }

  /** `detect_fat_slices`, as a function of the file's bytes (`None` if it cannot be read). */
  function DetectedSlices(file: Option<seq<Byte>>): Option<seq<string>> {
    if file.None? || |file.value| < 8 then None
    else
      var bytes := file.value;
      var magic, count := Word(bytes[..4]), Word(bytes[4..8]);
      if magic != FAT_MAGIC && magic != FAT_MAGIC_64 then None
      else if count == 0 || count > MAX_FAT_SLICES then None
      else
        var wide := magic == FAT_MAGIC_64;
        var want := TableSize(wide, count);
        if |bytes| - 8 < want then None else TableNames(bytes[8..8 + want], wide)
  }

  function Prefixed(names: seq<string>, rest: Option<seq<string>>): Option<seq<string>> {
    if rest.None? then None else Some(names + rest.value)
  }

  lemma PrefixedTwice(a: seq<string>, b: seq<string>, rest: Option<seq<string>>)
    ensures Prefixed([], rest) == rest && Prefixed(a + b, rest) == Prefixed(a, Prefixed(b, rest))
  {
    if rest.Some? {
      assert [] + rest.value == rest.value && a + b + rest.value == a + (b + rest.value);
    }
  }

  /** `detect_fat_slices`. */
  method DetectFatSlices(file: Option<seq<Byte>>) returns (slices: Option<seq<string>>)
    ensures slices == DetectedSlices(file)
  {
    if file.None? {
      return None;
    }
    var bytes := file.value;
    if |bytes| < 8 {
      return None;
    }
    var magic, count := Word(bytes[..4]), Word(bytes[4..8]);
    var wide;
    if magic == FAT_MAGIC {
      wide := false;
    } else if magic == FAT_MAGIC_64 {
      wide := true;
    } else {
      return None;
    }
    if count == 0 || count > MAX_FAT_SLICES {
      return None;
    }
    var want := TableSize(wide, count);
    if |bytes| - 8 < want {
      return None;
    }
    var entries := bytes[8..8 + want];
    ghost var table := TableNames(entries, wide);
    assert DetectedSlices(file) == table;
    var names: seq<string> := [];
    PrefixedTwice([], [], table);
    while |entries| >= EntrySize(wide)
      invariant table == Prefixed(names, TableNames(entries, wide))
      decreases |entries|
    {
      var name := FatSliceName(Word(entries[..4]), Word(entries[4..8]));
      if name.None? {
        return None;
      }
      PrefixedTwice(names, [name.value], TableNames(entries[EntrySize(wide)..], wide));
      names := names + [name.value];
      entries := entries[EntrySize(wide)..];
    }
    assert names + [] == names;
    return Some(names);
  }

  // ---- Reading what was written --------------------------------------------------------------------

  lemma {:induction false} TableLength(arches: seq<Arch>, wide: bool)
    requires AllFit(arches, wide)
    ensures |Table(arches)| == TableSize(wide, |arches|)
  {
    if arches != [] {
      TableLength(arches[1..], wide);
    }
  }

  lemma {:induction false} TableRoundTrip(arches: seq<Arch>, wide: bool)
    requires AllFit(arches, wide)
    ensures TableNames(Table(arches), wide) == Names(arches)
  {
    TableLength(arches, wide);
    if arches != [] {
      var a, raw := arches[0], Table(arches);
      TableRoundTrip(arches[1..], wide);
      assert raw[..4] == Bytes(a.cputype) && raw[4..8] == Bytes(a.cpusubtype);
      assert raw[EntrySize(wide)..] == Table(arches[1..]);
      WordOfBytes(a.cputype);
      WordOfBytes(a.cpusubtype);
    }
  }

  /** Every recognised header is read back: the slices' names, in order, whatever follows it. */
  lemma DetectsEveryHeader(arches: seq<Arch>, wide: bool, trailing: seq<Byte>)
    requires Recognised(arches, wide)
    ensures DetectedSlices(Some(Header(arches, wide) + trailing)) == Names(arches)
  {
    var bytes := Header(arches, wide) + trailing;
    assert bytes[..4] == Bytes(Magic(wide)) && bytes[4..8] == Bytes(|arches|);
    WordOfBytes(Magic(wide));
    WordOfBytes(|arches|);
    TableLength(arches, wide);
    assert bytes[8..8 + TableSize(wide, |arches|)] == Table(arches);
    TableRoundTrip(arches, wide);
  }

  lemma {:induction false} ParseTable(raw: seq<Byte>, wide: bool, count: nat) returns (arches: seq<Arch>)
    requires |raw| == TableSize(wide, count) && TableNames(raw, wide).Some?
    ensures AllFit(arches, wide) && Table(arches) == raw && |arches| == count
    ensures Names(arches) == TableNames(raw, wide)
  {
    if count == 0 {
      arches := [];
    } else {
      var size := EntrySize(wide);
      var rest := ParseTable(raw[size..], wide, count - 1);
      var a := ParseEntry(raw[..size], wide);
      assert raw[..size][..4] == raw[..4] && raw[..size][4..8] == raw[4..8];
      assert raw == raw[..size] + raw[size..];
      arches := [a] + rest;
      assert arches[1..] == rest;
    }
  }

  lemma ParseEntry(raw: seq<Byte>, wide: bool) returns (a: Arch)
    requires |raw| == EntrySize(wide)
    ensures Entry(a) == raw && Fits(a, wide)
    ensures Name(a) == FatSliceName(Word(raw[..4]), Word(raw[4..8]))
  {
    a := Arch(Word(raw[..4]), Word(raw[4..8]), raw[8..]);
    BytesOfWord(raw[..4]);
    BytesOfWord(raw[4..8]);
  }

  /** And nothing else is: slices are only ever reported for a file that starts with such a header. */
  lemma DetectsOnlyHeaders(file: Option<seq<Byte>>) returns (arches: seq<Arch>, wide: bool, trailing: seq<Byte>)
    requires DetectedSlices(file).Some?
    ensures Recognised(arches, wide)
    ensures file == Some(Header(arches, wide) + trailing)
    ensures DetectedSlices(file) == Names(arches)
  {
    var bytes := file.value;
    var count := Word(bytes[4..8]);
    wide := Word(bytes[..4]) == FAT_MAGIC_64;
    var end := 8 + TableSize(wide, count);
    arches := ParseTable(bytes[8..end], wide, count);
    trailing := bytes[end..];
    BytesOfWord(bytes[..4]);
    BytesOfWord(bytes[4..8]);
    assert bytes == bytes[..4] + bytes[4..8] + bytes[8..end] + trailing;
  }

  // ---- Choosing a slice -----------------------------------------------------------------------------

  datatype FatError =
    | InvalidArgument
    | DuplicateFatSlice(available: seq<string>, duplicates: seq<string>)
    | AmbiguousFatBinary(available: seq<string>)
    | UnknownFatArch(available: seq<string>)

  /** The names occurring more than once, each listed where it first occurs. */
  function Duplicates(names: seq<string>, i: nat): seq<string>
    requires i <= |names|
    decreases |names| - i
  {
    if i == |names| then []
    else
      (if names[i] !in names[..i] && names[i] in names[i + 1..] then [names[i]] else [])
      + Duplicates(names, i + 1)
  }

  /** `list.index`. */
  function Index(names: seq<string>, name: string): (i: nat)
    requires name in names
    ensures i < |names| && names[i] == name && name !in names[..i]
  {
    if names[0] == name then 0
    else
      (assert names == [names[0]] + names[1..];
       var i := Index(names[1..], name);
       assert names[..i + 1] == [names[0]] + names[1..][..i];
       i + 1)
  }

  /**
   * `check_fat_binary`. Whether the path names a database, and whether one is stored beside
   * the binary, are facts about the file system.
   */
  function CheckFatBinary(isDatabase: bool, isStored: bool, file: Option<seq<Byte>>, fatArch: string, forceNew: bool)
    : Result<Option<nat>, FatError>
  {
    if forceNew && isDatabase then Err(InvalidArgument)
    else if fatArch != "" && isDatabase then Err(InvalidArgument)
    else if isDatabase || (!forceNew && isStored) then Ok(None)
    else
      var slices := DetectedSlices(file);
      if slices.None? then
        if fatArch != "" then Err(InvalidArgument) else Ok(None)
      else
        var names := slices.value;
        var duplicates := Duplicates(names, 0);
        if duplicates != [] then Err(DuplicateFatSlice(names, duplicates))
        else if fatArch == "" then Err(AmbiguousFatBinary(names))
        else if fatArch !in names then Err(UnknownFatArch(names))
        else Ok(Some(Index(names, fatArch) + 1))
  }

  lemma {:induction false} DuplicatesFrom(names: seq<string>, i: nat, x: string)
    requires i <= |names|
    ensures x in Duplicates(names, i) <==>
              exists j :: i <= j < |names| && names[j] == x && x !in names[..j] && x in names[j + 1..]
    decreases |names| - i
  {
    if i < |names| {
      DuplicatesFrom(names, i + 1, x);
    }
  }

  lemma RepeatedIsDuplicate(names: seq<string>, i: nat, j: nat)
    requires i < j < |names| && names[i] == names[j]
    ensures names[i] in Duplicates(names, 0)
  {
    var x := names[i];
    var first := Index(names, x);
    assert first <= i by {
      assert forall m :: 0 <= m < first ==> names[..first][m] == names[m];
    }
    assert names[first + 1..][j - first - 1] == x;
    DuplicatesFrom(names, 0, x);
  }

  lemma DuplicateIsRepeated(names: seq<string>, x: string) returns (i: nat, j: nat)
    requires x in Duplicates(names, 0)
    ensures i < j < |names| && names[i] == x == names[j]
  {
    DuplicatesFrom(names, 0, x);
    i :| 0 <= i < |names| && names[i] == x && x !in names[..i] && x in names[i + 1..];
    var k :| 0 <= k < |names[i + 1..]| && names[i + 1..][k] == x;
    j := i + 1 + k;
  }

  /** Something is reported exactly when two names coincide, and only such names are. */
  lemma DuplicatesAreRepeated(names: seq<string>)
    ensures Duplicates(names, 0) == [] <==> Distinct(names)
  {
    if Duplicates(names, 0) != [] {
      var i, j := DuplicateIsRepeated(names, Duplicates(names, 0)[0]);
    }
    if !Distinct(names) {
      var i, j :| 0 <= i < j < |names| && names[i] == names[j];
      RepeatedIsDuplicate(names, i, j);
    }
  }

  /** A slice number is returned exactly when it picks out the one slice of that name. */
  lemma SliceNumberIsExact(isDatabase: bool, isStored: bool, file: Option<seq<Byte>>, fatArch: string,
                           forceNew: bool, k: nat)
    ensures CheckFatBinary(isDatabase, isStored, file, fatArch, forceNew) == Ok(Some(k)) <==>
              && !isDatabase && (forceNew || !isStored) && fatArch != ""
              && DetectedSlices(file).Some?
              && var names := DetectedSlices(file).value;
              && Distinct(names)
              && 1 <= k <= |names| && names[k - 1] == fatArch
              && (forall i :: 0 <= i < |names| && names[i] == fatArch ==> i == k - 1)
  {
    if DetectedSlices(file).Some? {
      DuplicatesAreRepeated(DetectedSlices(file).value);
    }
  }

  lemma SliceIsFound(file: Option<seq<Byte>>, i: nat, isStored: bool, forceNew: bool)
    requires DetectedSlices(file).Some? && i < |DetectedSlices(file).value| && (forceNew || !isStored)
    requires Distinct(DetectedSlices(file).value) && DetectedSlices(file).value[i] != ""
    ensures CheckFatBinary(false, isStored, file, DetectedSlices(file).value[i], forceNew) == Ok(Some(i + 1))
  {
    SliceNumberIsExact(false, isStored, file, DetectedSlices(file).value[i], forceNew, i + 1);
  }

  /** From bytes to slice number: asking for any slice of a written header finds its place in it. */
  lemma WrittenSliceIsFound(arches: seq<Arch>, wide: bool, trailing: seq<Byte>, i: nat, isStored: bool, forceNew: bool)
    requires Recognised(arches, wide) && Distinct(Names(arches).value)
    requires i < |arches| && (forceNew || !isStored)
    ensures CheckFatBinary(false, isStored, Some(Header(arches, wide) + trailing), Names(arches).value[i], forceNew)
         == Ok(Some(i + 1))
  {
    DetectsEveryHeader(arches, wide, trailing);
    NameIsNonEmpty(arches, i);
    SliceIsFound(Some(Header(arches, wide) + trailing), i, isStored, forceNew);
  }

  lemma {:induction false} NameIsNonEmpty(arches: seq<Arch>, i: nat)
    requires Names(arches).Some? && i < |arches|
    ensures Name(arches[i]) == Some(Names(arches).value[i]) && Names(arches).value[i] != ""
  {
    if i > 0 {
      NameIsNonEmpty(arches[1..], i - 1);
    }
  }
}
