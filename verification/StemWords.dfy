/** What the ID of a stem is: its words, whatever stands between them. */
module StemWords {
  import opened DatabaseIds

  predicate IsWordChar(c: char) {
    'a' <= c <= 'z' || '0' <= c <= '9'
  }

  /** The maximal runs of lower-case letters and digits in a text, in order. */
  function Words(s: string): (words: seq<string>)
    ensures s != [] && IsWordChar(s[0]) ==> words != []
  {
    if s == [] then []
    else if !IsWordChar(s[0]) then Words(s[1..])
    else if |s| > 1 && IsWordChar(s[1]) then
      var words := Words(s[1..]);
      [[s[0]] + words[0]] + words[1..]
    else [[s[0]]] + Words(s[1..])
  }

  predicate IsWord(w: string) {
    w != [] && forall i | 0 <= i < |w| :: IsWordChar(w[i])
  }

  lemma {:induction false} WordsAreWords(s: string)
    ensures forall w | w in Words(s) :: IsWord(w)
  {
    if s != [] {
      WordsAreWords(s[1..]);
      if IsWordChar(s[0]) && |s| > 1 && IsWordChar(s[1]) {
        var first := Words(s[1..])[0];
        assert IsWord(first) && IsWord([s[0]] + first);
      } else if IsWordChar(s[0]) {
        assert IsWord([s[0]]);
      }
    }
  }

  /** Words with one underscore between each and the next. */
  function Joined(words: seq<string>): string {
    if words == [] then []
    else if |words| == 1 then words[0]
    else words[0] + "_" + Joined(words[1..])
  }

  function Ending(s: string): string
    requires s != []
  {
    if IsWordChar(s[|s| - 1]) then "" else "_"
  }

  /** The words of a text, and an underscore if something else ends it. */
  function Body(s: string): string {
    if Words(s) == [] then [] else Joined(Words(s)) + Ending(s)
  }

  /** The body, after an underscore if something else starts the text. */
  function Collapsed(s: string): string {
    if s != [] && !IsWordChar(s[0]) then "_" + Body(s) else Body(s)
  }

  lemma {:induction false} NoWords(s: string)
    requires Words(s) == []
    ensures forall i | 0 <= i < |s| :: !IsWordChar(s[i])
  {
    if s != [] {
      NoWords(s[1..]);
      assert forall i | 0 < i < |s| :: s[i] == s[1..][i - 1];
    }
  }

  // ---- One character at a time -------------------------------------------------------------------

  lemma ReplaceSplits(s: string)
    requires s != []
    ensures ReplaceOthers(s) == [if IsWordChar(s[0]) then s[0] else '_'] + ReplaceOthers(s[1..])
  {
  }

  /** What the code does with the first character. */
  lemma CollapseSplits(s: string)
    requires s != []
    ensures var rest := Collapse(ReplaceOthers(s[1..]));
            Collapse(ReplaceOthers(s)) == (
              if IsWordChar(s[0]) then [s[0]] + rest
              else if |s| > 1 && !IsWordChar(s[1]) then rest else "_" + rest)
  {
    ReplaceSplits(s);
    assert ReplaceOthers(s)[1..] == ReplaceOthers(s[1..]);
    if |s| > 1 {
      ReplaceSplits(s[1..]);
    }
  }

  lemma OtherIsSkipped(s: string)
    requires |s| > 1 && !IsWordChar(s[0])
    ensures Body(s) == Body(s[1..])
  {
    assert s[|s| - 1] == s[1..][|s| - 2];
  }

  lemma WordGrows(s: string)
    requires |s| > 1 && IsWordChar(s[0]) && IsWordChar(s[1])
    ensures Body(s) == [s[0]] + Body(s[1..])
  {
    var words := Words(s[1..]);
    var grown := [[s[0]] + words[0]] + words[1..];
    assert Words(s) == grown;
    assert Joined(grown) == [s[0]] + Joined(words) by {
      assert grown[1..] == words[1..];
    }
    assert Ending(s) == Ending(s[1..]);
  }

  lemma LastWordEnds(s: string)
    requires |s| > 1 && IsWordChar(s[0]) && !IsWordChar(s[1]) && Words(s[1..]) == []
    ensures Body(s) == [s[0]] + ("_" + Body(s[1..]))
  {
    NoWords(s[1..]);
    assert !IsWordChar(s[1..][|s| - 2]);
    assert Words(s) == [[s[0]]];
  }

  lemma WordEnds(s: string)
    requires |s| > 1 && IsWordChar(s[0]) && !IsWordChar(s[1]) && Words(s[1..]) != []
    ensures Body(s) == [s[0]] + ("_" + Body(s[1..]))
  {
    var words := Words(s[1..]);
    assert Words(s) == [[s[0]]] + words && ([[s[0]]] + words)[1..] == words;
    assert Joined(Words(s)) == [s[0]] + "_" + Joined(words);
    assert Ending(s) == Ending(s[1..]);
    assert [s[0]] + "_" + Joined(words) + Ending(s) == [s[0]] + ("_" + (Joined(words) + Ending(s)));
  }

  lemma BodySplits(s: string)
    requires |s| > 1 && IsWordChar(s[0])
    ensures Body(s) == [s[0]] + Collapsed(s[1..])
  {
    if IsWordChar(s[1]) {
      WordGrows(s);
    } else {
      if Words(s[1..]) == [] {
        LastWordEnds(s);
      } else {
        WordEnds(s);
      }
    }
  }

  lemma CollapsedSplits(s: string)
    requires s != []
    ensures Collapsed(s)
         == if IsWordChar(s[0]) then [s[0]] + Collapsed(s[1..])
            else if |s| > 1 && !IsWordChar(s[1]) then Collapsed(s[1..]) else "_" + Collapsed(s[1..])
  {
    if |s| > 1 {
      if IsWordChar(s[0]) {
        BodySplits(s);
      } else {
        OtherIsSkipped(s);
      }
    }
  }

  lemma {:induction false} CollapsesToWords(s: string)
    ensures Collapse(ReplaceOthers(s)) == Collapsed(s)
  {
    if s != [] {
      CollapseSplits(s);
      CollapsedSplits(s);
      CollapsesToWords(s[1..]);
    }
  }

  // ---- The whole stem ----------------------------------------------------------------------------

  predicate HasCleanEnds(s: string) {
    s != [] && s[0] != '_' && s[|s| - 1] != '_'
  }

  lemma {:induction false} JoinedEnds(words: seq<string>)
    requires words != [] && forall w | w in words :: IsWord(w)
    ensures HasCleanEnds(Joined(words))
  {
    assert IsWord(words[0]);
    if |words| > 1 {
      JoinedEnds(words[1..]);
    }
  }

  lemma StripsBehind(core: string, after: string)
    requires HasCleanEnds(core) && after in {"", "_"}
    ensures StripUnderscores(core + after) == core
  {
    if after == "_" {
      assert (core + after)[..|core|] == core;
    } else {
      assert core + after == core;
    }
  }

  lemma StripsBefore(rest: string)
    ensures StripUnderscores("_" + rest) == StripUnderscores(rest)
  {
    assert ("_" + rest)[1..] == rest;
  }

  lemma BodyStrips(s: string)
    ensures StripUnderscores(Body(s)) == Joined(Words(s))
  {
    if Words(s) != [] {
      WordsAreWords(s);
      JoinedEnds(Words(s));
      StripsBehind(Joined(Words(s)), Ending(s));
    }
  }

  lemma CoreIsWords(s: string)
    ensures StripUnderscores(Collapse(ReplaceOthers(s))) == Joined(Words(s))
  {
    CollapsesToWords(s);
    BodyStrips(s);
    StripsBefore(Body(s));
  }

  /**
   * The ID of a stem: its words joined by underscores, after `db_` if that starts with a digit,
   * and `db` if there are none, cut at 32 characters.
   */
  lemma NormalizeIdExactly(lowered: string)
    ensures var core := Joined(Words(lowered));
            var full := if core == "" then "db" else if '0' <= core[0] <= '9' then "db_" + core else core;
            NormalizeId(lowered) == if |full| <= 32 then full else full[..32]
  {
    CoreIsWords(lowered);
  }
}
