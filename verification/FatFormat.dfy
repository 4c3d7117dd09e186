/** Fat headers byte by byte, and when each refusal of a fat binary is given. */
module FatFormat {
  import opened Wrappers
  import opened FatHeader

  // ---- Names -------------------------------------------------------------------------------------

  /** The name of a slice from the four bytes of its CPU type and the low three of its subtype. */
  function NameOnDisk(cputype: seq<Byte>, subtype: seq<Byte>): Option<string> {
    if cputype == [0, 0, 0, 7] then Some("i386")
    else if cputype == [1, 0, 0, 7] then Some(if subtype == [0, 0, 8] then "x86_64h" else "x86_64")
    else if cputype == [0, 0, 0, 12] then
      Some(if subtype == [0, 0, 6] then "armv6"
           else if subtype == [0, 0, 9] then "armv7"
           else if subtype == [0, 0, 11] then "armv7s"
           else if subtype == [0, 0, 12] then "armv7k" else "arm")
    else if cputype == [1, 0, 0, 12] then Some(if subtype == [0, 0, 2] then "arm64e" else "arm64")
    else if cputype == [2, 0, 0, 12] then Some("arm64_32")
    else if cputype == [0, 0, 0, 18] then Some("ppc")
    else if cputype == [1, 0, 0, 18] then Some("ppc64")
    else None
  }

  /** A small word is its last byte, and one with a high byte is that byte and the last. */
  lemma WordIs(s: seq<Byte>, a: Byte, b: Byte, c: Byte, d: Byte)
    requires |s| == 4
    ensures Word(s) == a as int * 0x100_0000 + b as int * 0x1_0000 + c as int * 0x100 + d as int <==> s == [a, b, c, d]
  {
    var t: seq<Byte> := [a, b, c, d];
    if Word(s) == Word(t) {
      BytesOfWord(s);
      BytesOfWord(t);
    }
  }

  lemma SubtypeIs(s: seq<Byte>, d: Byte)
    requires |s| == 4
    ensures Word(s) % 0x100_0000 == d as int <==> s[1..] == [0, 0, d]
  {
    var low := s[1] as int * 0x1_0000 + s[2] as int * 0x100 + s[3] as int;
    assert Word(s) == s[0] as int * 0x100_0000 + low && 0 <= low < 0x100_0000;
    assert Word(s) % 0x100_0000 == low;
  }

  lemma CpuTypeOnDisk(t: seq<Byte>)
    requires |t| == 4
    ensures CpuTypeName(Word(t)) == NameOnDisk(t, [])
  {
    WordIs(t, 0, 0, 0, 7);
    WordIs(t, 1, 0, 0, 7);
    WordIs(t, 0, 0, 0, 12);
    WordIs(t, 1, 0, 0, 12);
    WordIs(t, 2, 0, 0, 12);
    WordIs(t, 0, 0, 0, 18);
    WordIs(t, 1, 0, 0, 18);
  }

  lemma SubtypesOnDisk(s: seq<Byte>)
    requires |s| == 4
    ensures var sub := Word(s) % 0x100_0000;
            && (sub == 8 <==> s[1..] == [0, 0, 8]) && (sub == 2 <==> s[1..] == [0, 0, 2])
            && (sub == 9 <==> s[1..] == [0, 0, 9]) && (sub == 11 <==> s[1..] == [0, 0, 11])
            && (sub == 12 <==> s[1..] == [0, 0, 12]) && (sub == 6 <==> s[1..] == [0, 0, 6])
  {
    SubtypeIs(s, 8);
    SubtypeIs(s, 2);
    SubtypeIs(s, 9);
    SubtypeIs(s, 11);
    SubtypeIs(s, 12);
    SubtypeIs(s, 6);
  }

  /** The table of names, in bytes. */
  lemma NameExactly(t: seq<Byte>, s: seq<Byte>)
    requires |t| == |s| == 4
    ensures FatSliceName(Word(t), Word(s)) == NameOnDisk(t, s[1..])
  {
    CpuTypeOnDisk(t);
    SubtypesOnDisk(s);
    WordIs(t, 1, 0, 0, 7);
    WordIs(t, 0, 0, 0, 12);
    WordIs(t, 1, 0, 0, 12);
  }

  // ---- The table -----------------------------------------------------------------------------------

  /** Where the `i`-th entry of a table starts. */
  function At(wide: bool, i: nat): nat {
    if wide then 32 * i else 20 * i
  }

  /** The name in the entry that starts here. */
  function EntryName(raw: seq<Byte>, at: nat): Option<string>
    requires at + 8 <= |raw|
  {
    NameOnDisk(raw[at..at + 4], raw[at + 5..at + 8])
  }

  /** The table's entries have these names, in order. */
  ghost predicate TableSpells(raw: seq<Byte>, wide: bool, names: seq<string>) {
    && |raw| == At(wide, |names|)
    && forall i | 0 <= i < |names| :: EntryName(raw, At(wide, i)) == Some(names[i])
  }

  lemma FirstEntry(raw: seq<Byte>)
    requires |raw| >= 20
    ensures FatSliceName(Word(raw[..4]), Word(raw[4..8])) == EntryName(raw, 0)
  {
    NameExactly(raw[..4], raw[4..8]);
    assert raw[4..8][1..] == raw[5..8] && raw[0..4] == raw[..4];
  }

  lemma LaterEntry(raw: seq<Byte>, size: nat, at: nat)
    requires size + at + 8 <= |raw|
    ensures EntryName(raw, size + at) == EntryName(raw[size..], at)
  {
    var rest := raw[size..];
    assert raw[size + at..size + at + 4] == rest[at..at + 4];
    assert raw[size + at + 5..size + at + 8] == rest[at + 5..at + 8];
  }

  lemma SpellsSplits(raw: seq<Byte>, wide: bool, names: seq<string>)
    requires names != [] && |raw| >= At(wide, 1)
    ensures TableSpells(raw, wide, names) <==>
              EntryName(raw, 0) == Some(names[0]) && TableSpells(raw[At(wide, 1)..], wide, names[1..])
  {
    var size, rest := At(wide, 1), raw[At(wide, 1)..];
    if |raw| == At(wide, |names|) {
      forall i | 0 <= i < |names| - 1
        ensures EntryName(raw, At(wide, i + 1)) == EntryName(rest, At(wide, i))
      {
        LaterEntry(raw, size, At(wide, i));
      }
      if TableSpells(rest, wide, names[1..]) && EntryName(raw, 0) == Some(names[0]) {
        forall i | 0 <= i < |names| ensures EntryName(raw, At(wide, i)) == Some(names[i]) {
          if i > 0 {
            assert names[1..][i - 1] == names[i];
            assert EntryName(raw, At(wide, i - 1 + 1)) == EntryName(rest, At(wide, i - 1));
          }
        }
      }
      if TableSpells(raw, wide, names) {
        forall i | 0 <= i < |names| - 1 ensures EntryName(rest, At(wide, i)) == Some(names[1..][i]) {
          assert EntryName(raw, At(wide, i + 1)) == Some(names[i + 1]);
        }
      }
    }
  }

  lemma {:induction false} TableExactly(raw: seq<Byte>, wide: bool, count: nat, names: seq<string>)
    requires |raw| == At(wide, count)
    ensures TableNames(raw, wide) == Some(names) <==> TableSpells(raw, wide, names)
    decreases count
  {
    if count > 0 {
      var size, rest := At(wide, 1), raw[At(wide, 1)..];
      FirstEntry(raw);
      if names != [] {
        TableExactly(rest, wide, count - 1, names[1..]);
        SpellsSplits(raw, wide, names);
        assert names == [names[0]] + names[1..];
      }
      TableHead(raw, wide, names);
    }
  }

  /** The table's first name stands in front of the others. */
  lemma TableHead(raw: seq<Byte>, wide: bool, names: seq<string>)
    requires |raw| >= At(wide, 1)
    ensures TableNames(raw, wide) == Some(names) <==>
              names != [] && FatSliceName(Word(raw[..4]), Word(raw[4..8])) == Some(names[0])
              && TableNames(raw[At(wide, 1)..], wide) == Some(names[1..])
  {
    var first, rest := FatSliceName(Word(raw[..4]), Word(raw[4..8])), TableNames(raw[EntrySize(wide)..], wide);
    if first.Some? && rest.Some? {
      assert ([first.value] + rest.value)[1..] == rest.value;
      if names != [] {
        assert names == [names[0]] + names[1..];
      }
    }
  }

  // ---- The file ------------------------------------------------------------------------------------

  /**
   * The bytes of a fat file: the magic number, a count of 1 to 32 as a big-endian word, and a
   * complete table whose entries have these names. What follows does not matter.
   */
  ghost predicate IsFatFile(bytes: seq<Byte>, wide: bool, names: seq<string>) {
    && |bytes| >= 8
    && bytes[..4] == [0xCA, 0xFE, 0xBA, if wide then 0xBF else 0xBE]
    && bytes[4..7] == [0, 0, 0] && 1 <= bytes[7] <= 32
    && |bytes| >= 8 + At(wide, bytes[7])
    && TableSpells(bytes[8..8 + At(wide, bytes[7])], wide, names)
  }

  lemma MagicOnDisk(s: seq<Byte>)
    requires |s| == 4
    ensures Word(s) == FAT_MAGIC <==> s == [0xCA, 0xFE, 0xBA, 0xBE]
    ensures Word(s) == FAT_MAGIC_64 <==> s == [0xCA, 0xFE, 0xBA, 0xBF]
  {
    WordIs(s, 0xCA, 0xFE, 0xBA, 0xBE);
    WordIs(s, 0xCA, 0xFE, 0xBA, 0xBF);
  }

  lemma CountOnDisk(s: seq<Byte>)
    requires |s| == 4
    ensures 1 <= Word(s) <= 32 <==> s[..3] == [0, 0, 0] && 1 <= s[3] <= 32
    ensures 1 <= Word(s) <= 32 ==> Word(s) == s[3]
  {
    if s[..3] != [0, 0, 0] {
      assert s[0] > 0 || s[1] > 0 || s[2] > 0;
    }
  }

  /** The detector reports these names exactly for the files of one of the two formats that hold them. */
  lemma DetectedExactly(bytes: seq<Byte>, names: seq<string>)
    ensures DetectedSlices(Some(bytes)) == Some(names) <==>
              IsFatFile(bytes, false, names) || IsFatFile(bytes, true, names)
  {
    if |bytes| >= 8 {
      MagicOnDisk(bytes[..4]);
      CountOnDisk(bytes[4..8]);
      assert bytes[4..8][..3] == bytes[4..7] && bytes[4..8][3] == bytes[7];
      var wide := Word(bytes[..4]) == FAT_MAGIC_64;
      if 1 <= Word(bytes[4..8]) <= 32 && |bytes| >= 8 + At(wide, bytes[7]) {
        TableExactly(bytes[8..8 + At(wide, bytes[7])], wide, bytes[7], names);
      }
    }
  }

  /** What is written is such a file. */
  lemma WritesFatFile(arches: seq<Arch>, wide: bool, trailing: seq<Byte>)
    requires Recognised(arches, wide)
    ensures IsFatFile(Header(arches, wide) + trailing, false, Names(arches).value)
         || IsFatFile(Header(arches, wide) + trailing, true, Names(arches).value)
  {
    DetectsEveryHeader(arches, wide, trailing);
    DetectedExactly(Header(arches, wide) + trailing, Names(arches).value);
  }

  // ---- Refusals ------------------------------------------------------------------------------------

  /**
   * When each answer is given. The header decides only for a binary without a stored analysis, or
   * whose analysis is to be discarded; repeated names are reported before anything else about it.
   */
  lemma CheckExactly(isDatabase: bool, isStored: bool, file: Option<seq<Byte>>, fatArch: string, forceNew: bool)
    ensures var r := CheckFatBinary(isDatabase, isStored, file, fatArch, forceNew);
            var read := !isDatabase && (forceNew || !isStored);
            var slices := DetectedSlices(file);
            && (r == Err(InvalidArgument) <==>
                  (isDatabase && (forceNew || fatArch != "")) || (read && slices.None? && fatArch != ""))
            && (r == Ok(None) <==>
                  if isDatabase then !forceNew && fatArch == ""
                  else (!forceNew && isStored) || (slices.None? && fatArch == ""))
            && (r.Err? && r.error.DuplicateFatSlice? <==> read && slices.Some? && !Distinct(slices.value))
            && (r.Err? && r.error.AmbiguousFatBinary? <==>
                  read && slices.Some? && Distinct(slices.value) && fatArch == "")
            && (r.Err? && r.error.UnknownFatArch? <==>
                  read && slices.Some? && Distinct(slices.value) && fatArch != "" && fatArch !in slices.value)
            && (r.Err? && !r.error.InvalidArgument? ==> Some(r.error.available) == slices)
            && (r.Err? && r.error.DuplicateFatSlice? ==> r.error.duplicates == Duplicates(slices.value, 0))
  {
    if DetectedSlices(file).Some? {
      DuplicatesAreRepeated(DetectedSlices(file).value);
    }
  }

  /** Names from position `i` on, each listed once and by where it first occurs. */
  ghost predicate InOrder(d: seq<string>, names: seq<string>, i: nat) {
    && (forall a | 0 <= a < |d| :: d[a] in names && Index(names, d[a]) >= i)
    && (forall a, b | 0 <= a < b < |d| :: Index(names, d[a]) < Index(names, d[b]))
  }

  lemma OrderExtends(d: seq<string>, names: seq<string>, i: nat)
    requires i < |names| && Index(names, names[i]) == i && InOrder(d, names, i + 1)
    ensures InOrder([names[i]] + d, names, i)
  {
    var e := [names[i]] + d;
    assert forall a | 0 < a < |e| :: e[a] == d[a - 1];
  }

  lemma FirstIndex(names: seq<string>, i: nat)
    requires i < |names| && names[i] !in names[..i]
    ensures Index(names, names[i]) == i
  {
    var first := Index(names, names[i]);
    assert forall m | 0 <= m < i :: names[..i][m] == names[m];
    assert forall m | 0 <= m < first :: names[..first][m] == names[m];
  }

  /** The repeated names are listed once each, in the order in which they first occur. */
  lemma {:induction false} DuplicatesInOrder(names: seq<string>, i: nat)
    requires i <= |names|
    ensures InOrder(Duplicates(names, i), names, i)
    decreases |names| - i
  {
    if i < |names| {
      DuplicatesInOrder(names, i + 1);
      if names[i] !in names[..i] && names[i] in names[i + 1..] {
        FirstIndex(names, i);
        OrderExtends(Duplicates(names, i + 1), names, i);
      } else {
        assert Duplicates(names, i) == Duplicates(names, i + 1);
      }
    }
  }
}
