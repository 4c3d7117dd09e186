/** The lowest and highest address of a program's image, whatever the order of its memory blocks. */
module MemoryBounds {
  import opened Wrappers

  /** Spaces are numbered in the order that addresses are compared in. */
  datatype Address = Address(space: int, offset: int)

  datatype Block = Block(start: Address, end: Address, artificial: bool)

  /** `compareTo` below zero: the space first, then the offset. */
  predicate Before(a: Address, b: Address) {
    a.space < b.space || (a.space == b.space && a.offset < b.offset)
  }

  // ---- What the bounds are -----------------------------------------------------------------

  predicate Loaded(b: Block, loaded: set<int>) {
    b.start.space in loaded
  }

  /** Real loaded blocks, or the fabricated ones too if there is no real one. */
  predicate Selected(b: Block, blocks: seq<Block>, loaded: set<int>) {
    && b in blocks && Loaded(b, loaded)
    && (!b.artificial || forall c :: c in blocks && Loaded(c, loaded) ==> c.artificial)
  }

  /** The one space both bounds come from. */
  predicate HomeSpace(space: int, blocks: seq<Block>, loaded: set<int>, default: Option<int>) {
    if default.Some? && exists b :: b in blocks && Selected(b, blocks, loaded) && b.start.space == default.value
    then space == default.value
    else
      && (exists b :: b in blocks && Selected(b, blocks, loaded) && b.start.space == space)
      && (forall b :: b in blocks && Selected(b, blocks, loaded) ==> space <= b.start.space)
  }

  predicate Contributes(b: Block, space: int, blocks: seq<Block>, loaded: set<int>) {
    Selected(b, blocks, loaded) && b.start.space == space && b.end.space == space
  }

  /** Attained by a contributing block, and enclosing every one of them. */
  predicate Encloses(low: Address, high: Address, space: int, blocks: seq<Block>, loaded: set<int>) {
    && low.space == space && high.space == space
    && (exists b :: b in blocks && Contributes(b, space, blocks, loaded) && b.start == low)
    && (exists b :: b in blocks && Contributes(b, space, blocks, loaded) && b.end == high)
    && (forall b :: b in blocks && Contributes(b, space, blocks, loaded) ==>
          low.offset <= b.start.offset && b.end.offset <= high.offset)
  }

  ghost predicate AreBounds(r: Option<(Address, Address)>, blocks: seq<Block>, loaded: set<int>, default: Option<int>) {
    match r
    case Some((low, high)) =>
      HomeSpace(low.space, blocks, loaded, default) && Encloses(low, high, low.space, blocks, loaded)
    case None =>
      forall space, b :: HomeSpace(space, blocks, loaded, default) && b in blocks ==>
        !Contributes(b, space, blocks, loaded)
  }

  // ---- How they are found ----------------------------------------------------------------------

  function Filter(blocks: seq<Block>, loaded: set<int>, fabricated: bool): (r: seq<Block>)
    ensures forall b :: b in r <==> b in blocks && Loaded(b, loaded) && (fabricated || !b.artificial)
  {
    if blocks == [] then []
    else
      (if Loaded(blocks[0], loaded) && (fabricated || !blocks[0].artificial) then [blocks[0]] else [])
      + Filter(blocks[1..], loaded, fabricated)
  }

  /** `loaded_memory_bounds`; `loaded` are the spaces of loaded memory. */
  method LoadedMemoryBounds(allBlocks: seq<Block>, loaded: set<int>, default: Option<int>)
    returns (r: Option<(Address, Address)>)
    ensures AreBounds(r, allBlocks, loaded, default)
  {
    var blocks := Filter(allBlocks, loaded, false);
    if blocks == [] {
      blocks := Filter(allBlocks, loaded, true);
    }
    SelectedAreFiltered(allBlocks, loaded, blocks);
    if blocks == [] {
      return None;
    }
    var space := ChooseSpace(blocks, default);
    SpaceIsHome(space, blocks, allBlocks, loaded, default);
    var lowest, highest := BoundsIn(space, blocks);
    forall s | HomeSpace(s, allBlocks, loaded, default)
      ensures s == space
    {
      HomeSpaceIsUnique(s, space, allBlocks, loaded, default);
    }
    if lowest.None? || highest.None? {
      return None;
    }
    return Some((lowest.value, highest.value));
  }

  lemma SelectedAreFiltered(all: seq<Block>, loaded: set<int>, blocks: seq<Block>)
    requires blocks == if Filter(all, loaded, false) == [] then Filter(all, loaded, true)
                       else Filter(all, loaded, false)
    ensures forall b :: b in blocks <==> Selected(b, all, loaded)
  {
    var genuine := Filter(all, loaded, false);
    if genuine != [] {
      assert genuine[0] in genuine;
    } else {
      assert forall c :: c in all && Loaded(c, loaded) ==> c.artificial by {
        assert forall c :: c !in genuine;
      }
    }
  }

  predicate IsSpaceOf(space: int, blocks: seq<Block>, default: Option<int>) {
    if default.Some? && exists b :: b in blocks && b.start.space == default.value
    then space == default.value
    else (exists b :: b in blocks && b.start.space == space) && forall b :: b in blocks ==> space <= b.start.space
  }

  method ChooseSpace(blocks: seq<Block>, default: Option<int>) returns (space: int)
    requires blocks != []
    ensures IsSpaceOf(space, blocks, default)
  {
    if default.Some? && exists b :: b in blocks && b.start.space == default.value {
      return default.value;
    }
    var lowestStart: Option<Address> := None;
    var i := 0;
    while i < |blocks|
      invariant 0 <= i <= |blocks|
      invariant lowestStart.None? <==> i == 0
      invariant lowestStart.Some? ==> exists j :: 0 <= j < i && blocks[j].start == lowestStart.value
      invariant lowestStart.Some? ==> forall j :: 0 <= j < i ==> !Before(blocks[j].start, lowestStart.value)
    {
      var start := blocks[i].start;
      if lowestStart.None? || Before(start, lowestStart.value) {
        lowestStart := Some(start);
      }
      i := i + 1;
    }
    return lowestStart.value.space;
  }

  predicate In(b: Block, space: int) {
    b.start.space == space && b.end.space == space
  }

  method BoundsIn(space: int, blocks: seq<Block>) returns (lowest: Option<Address>, highest: Option<Address>)
    ensures lowest.None? == highest.None? == (forall b :: b in blocks ==> !In(b, space))
    ensures lowest.Some? ==> exists b :: b in blocks && In(b, space) && b.start == lowest.value
    ensures highest.Some? ==> exists b :: b in blocks && In(b, space) && b.end == highest.value
    ensures forall b :: lowest.Some? && highest.Some? && b in blocks && In(b, space) ==>
              lowest.value.offset <= b.start.offset && b.end.offset <= highest.value.offset
  {
    lowest, highest := None, None;
    var i := 0;
    while i < |blocks|
      invariant 0 <= i <= |blocks|
      invariant lowest.None? == highest.None? == (forall j :: 0 <= j < i ==> !In(blocks[j], space))
      invariant lowest.Some? ==> exists j :: 0 <= j < i && In(blocks[j], space) && blocks[j].start == lowest.value
      invariant highest.Some? ==> exists j :: 0 <= j < i && In(blocks[j], space) && blocks[j].end == highest.value
      invariant forall j :: lowest.Some? && 0 <= j < i && In(blocks[j], space) ==>
                  lowest.value.offset <= blocks[j].start.offset
      invariant forall j :: highest.Some? && 0 <= j < i && In(blocks[j], space) ==>
                  blocks[j].end.offset <= highest.value.offset
    {
      var start, end := blocks[i].start, blocks[i].end;
      i := i + 1;
      if start.space != space || end.space != space {
        continue;
      }
      assert In(blocks[i - 1], space);
      if lowest.None? || Before(start, lowest.value) {
        lowest := Some(start);
      }
      if highest.None? || Before(highest.value, end) {
        highest := Some(end);
      }
    }
  }

  lemma SpaceIsHome(space: int, blocks: seq<Block>, all: seq<Block>, loaded: set<int>, default: Option<int>)
    requires forall b :: b in blocks <==> Selected(b, all, loaded)
    requires IsSpaceOf(space, blocks, default)
    ensures HomeSpace(space, all, loaded, default)
  {
  }

  // ---- What they promise ----------------------------------------------------------------------------

  lemma HomeSpaceIsUnique(s: int, t: int, blocks: seq<Block>, loaded: set<int>, default: Option<int>)
    requires HomeSpace(s, blocks, loaded, default) && HomeSpace(t, blocks, loaded, default)
    ensures s == t
  {
  }

  lemma EnclosingIsUnique(low: Address, high: Address, low': Address, high': Address,
                          space: int, blocks: seq<Block>, loaded: set<int>)
    requires Encloses(low, high, space, blocks, loaded) && Encloses(low', high', space, blocks, loaded)
    ensures low == low' && high == high'
  {
  }

  /** A list of blocks has one pair of bounds. */
  lemma BoundsAreUnique(r: Option<(Address, Address)>, r': Option<(Address, Address)>,
                        blocks: seq<Block>, loaded: set<int>, default: Option<int>)
    requires AreBounds(r, blocks, loaded, default) && AreBounds(r', blocks, loaded, default)
    ensures r == r'
  {
    if r.Some? && r'.Some? {
      HomeSpaceIsUnique(r.value.0.space, r'.value.0.space, blocks, loaded, default);
      EnclosingIsUnique(r.value.0, r.value.1, r'.value.0, r'.value.1, r.value.0.space, blocks, loaded);
    }
  }

  /** Permuting the blocks does not change their bounds. */
  lemma BoundsIgnoreOrder(r: Option<(Address, Address)>, r': Option<(Address, Address)>,
                          blocks: seq<Block>, blocks': seq<Block>, loaded: set<int>, default: Option<int>)
    requires multiset(blocks) == multiset(blocks')
    requires AreBounds(r, blocks, loaded, default) && AreBounds(r', blocks', loaded, default)
    ensures r == r'
  {
    SameElements(blocks, blocks');
    SameBounds(r', blocks', blocks, loaded, default);
    BoundsAreUnique(r, r', blocks, loaded, default);
  }

  lemma SameElements(a: seq<Block>, b: seq<Block>)
    requires multiset(a) == multiset(b)
    ensures forall x :: x in a <==> x in b
  {
    forall x
      ensures x in a <==> x in b
    {
      assert x in a <==> x in multiset(a);
      assert x in b <==> x in multiset(b);
    }
  }

  lemma SameBounds(r: Option<(Address, Address)>, a: seq<Block>, b: seq<Block>, loaded: set<int>, default: Option<int>)
    requires (forall x :: x in a <==> x in b) && AreBounds(r, a, loaded, default)
    ensures AreBounds(r, b, loaded, default)
  {
    assert forall x :: Selected(x, a, loaded) <==> Selected(x, b, loaded);
    assert forall s, x :: Contributes(x, s, a, loaded) <==> Contributes(x, s, b, loaded);
    assert forall s :: HomeSpace(s, a, loaded, default) <==> HomeSpace(s, b, loaded, default);
  }

  /**
   * In words of the blocks alone: both bounds are in one space of loaded memory, the default one
   * if a real loaded block starts there; each is an end of a block within that space, a real one
   * if any real block is loaded; and every such block lies between them.
   */
  lemma BoundsSpelledOut(low: Address, high: Address, blocks: seq<Block>, loaded: set<int>, default: Option<int>)
    requires AreBounds(Some((low, high)), blocks, loaded, default)
    ensures low.space == high.space && low.space in loaded
    ensures exists b | b in blocks :: b.start == low && b.end.space == low.space
    ensures exists b | b in blocks :: b.end == high && b.start.space == low.space
    ensures (exists c | c in blocks :: c.start.space in loaded && !c.artificial) ==>
              && (exists b | b in blocks :: b.start == low && !b.artificial)
              && (exists b | b in blocks :: b.end == high && !b.artificial)
    ensures forall b | b in blocks && !b.artificial && b.start.space == b.end.space == low.space ::
              low.offset <= b.start.offset && b.end.offset <= high.offset
    ensures forall b | b in blocks && !b.artificial && b.start.space in loaded ::
              (default == Some(b.start.space) ==> low.space == b.start.space)
              && (low.space <= b.start.space || default == Some(low.space))
  {
    var a :| a in blocks && Contributes(a, low.space, blocks, loaded) && a.start == low;
    var z :| z in blocks && Contributes(z, low.space, blocks, loaded) && z.end == high;
    forall b | b in blocks && !b.artificial && b.start.space in loaded
      ensures Selected(b, blocks, loaded)
    {
    }
  }

  /** With a loaded block and no straddling block there are bounds, the right way round if each block is. */
  lemma BoundsExist(r: Option<(Address, Address)>, blocks: seq<Block>, loaded: set<int>, default: Option<int>,
                    witness_: Block)
    requires AreBounds(r, blocks, loaded, default)
    requires witness_ in blocks && Loaded(witness_, loaded)
    requires forall b :: b in blocks ==> b.start.space == b.end.space
    ensures r.Some? && r.value.0.space == r.value.1.space
    ensures (forall b :: b in blocks ==> b.start.offset <= b.end.offset) ==> r.value.0.offset <= r.value.1.offset
  {
    if r.None? {
      var blocks' := Filter(blocks, loaded, false);
      if blocks' == [] {
        blocks' := Filter(blocks, loaded, true);
      }
      SelectedAreFiltered(blocks, loaded, blocks');
      assert blocks' != [];
      var space := HomeOf(blocks', default);
      SpaceIsHome(space, blocks', blocks, loaded, default);
      var b :| b in blocks' && b.start.space == space;
      assert Contributes(b, space, blocks, loaded);
    }
  }

  lemma HomeOf(blocks: seq<Block>, default: Option<int>) returns (space: int)
    requires blocks != []
    ensures IsSpaceOf(space, blocks, default)
    ensures exists b :: b in blocks && b.start.space == space
  {
    if default.Some? && exists b :: b in blocks && b.start.space == default.value {
      space := default.value;
    } else {
      space := LowestSpace(blocks);
    }
  }

  lemma {:induction false} LowestSpace(blocks: seq<Block>) returns (space: int)
    requires blocks != []
    ensures exists b :: b in blocks && b.start.space == space
    ensures forall b :: b in blocks ==> space <= b.start.space
  {
    space := blocks[0].start.space;
    if |blocks| > 1 {
      var rest := LowestSpace(blocks[1..]);
      if rest < space {
        space := rest;
      }
    } else {
      assert blocks == [blocks[0]];
    }
  }
}
