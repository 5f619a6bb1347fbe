/** What getInitialsFromParticipant promises: only the text before the first '@' matters;
    the parts are exactly the maximal separator-free runs (every string with a part is a
    leading run of separators, words with runs of separators between them and a trailing
    run, and its parts are those words; they also concatenate to the input without its
    separators); and the result for inputs of two or more words, one word, or separators
    only. */
module AvatarLemmas {
  import opened Avatar

  // ---- The text before the first '@' ----

  /** With no '@' the whole string is used; with one, exactly the text before the first. */
  lemma {:induction false} BeforeFirstAtOfEmail(local: string, domain: string)
    requires '@' !in local
    ensures BeforeFirstAt(local) == local
    ensures BeforeFirstAt(local + "@" + domain) == local
  {
    if local != [] {
      assert (local + "@" + domain)[1..] == local[1..] + "@" + domain;
      BeforeFirstAtOfEmail(local[1..], domain);
    }
  }

  /** The domain never influences the initials: they are those of the local part. */
  lemma InitialsIgnoreDomain(local: string, domain: string)
    requires '@' !in local
    ensures Initials(local + "@" + domain) == Initials(local)
  {
    BeforeFirstAtOfEmail(local, domain);
  }

  // ---- The parts are the maximal runs of non-separators ----

  /** Splitting a separator-free word followed by more text: the word is glued to the
      first piece of the rest. */
  lemma {:induction false} SplitOnRunsOfWord(w: string, rest: string)
    requires NoSeparator(w)
    ensures var r := SplitOnRuns(rest);
      SplitOnRuns(w + rest) == [w + r[0]] + r[1..]
    decreases |w|
  {
    var r := SplitOnRuns(rest);
    if w == [] {
      assert w + rest == rest;
      assert w + r[0] == r[0];
      assert [r[0]] + r[1..] == r;
    } else {
      var s := w + rest;
      assert s[0] == w[0] && !IsSeparator(s[0]);
      assert s[1..] == w[1..] + rest;
      SplitOnRunsOfWord(w[1..], rest);
      var x := SplitOnRuns(s[1..]);
      assert x[0] == w[1..] + r[0] && x[1..] == r[1..];
      assert SplitOnRuns(s) == [[w[0]] + x[0]] + x[1..];
      assert [w[0]] + (w[1..] + r[0]) == w + r[0];
    }
  }

  /** A string is all separators exactly when its tail is, once its first character is one. */
  lemma AllSeparatorsTail(s: string)
    requires s != [] && IsSeparator(s[0])
    ensures AllSeparators(s) <==> AllSeparators(s[1..])
  {
    if AllSeparators(s[1..]) {
      forall i | 0 <= i < |s| ensures IsSeparator(s[i]) {
        if i > 0 {
          assert s[i] == s[1..][i - 1];
        }
      }
    }
  }

  /** A run of separators is dropped whole, up to the first non-separator. */
  lemma {:induction false} DropSeparatorsOfRun(sep: string, t: string)
    requires AllSeparators(sep)
    requires t == [] || !IsSeparator(t[0])
    ensures DropSeparators(sep + t) == t
    decreases |sep|
  {
    if sep == [] {
      assert sep + t == t;
    } else {
      assert (sep + t)[0] == sep[0];
      assert (sep + t)[1..] == sep[1..] + t;
      AllSeparatorsTail(sep);
      DropSeparatorsOfRun(sep[1..], t);
    }
  }

  /** A run of separators before a word, or at the very end, opens one empty piece. */
  lemma SplitOnRunsAfterRun(sep: string, t: string)
    requires sep != [] && AllSeparators(sep)
    requires t == [] || !IsSeparator(t[0])
    ensures SplitOnRuns(sep + t) == [""] + SplitOnRuns(t)
  {
    DropSeparatorsOfRun(sep, t);
    assert (sep + t)[0] == sep[0];
  }

  /** The empty piece a non-empty leading or trailing run of separators contributes. */
  function EdgePiece(run: string): seq<string> {
    if run == [] then [] else [""]
  }

  /** A word followed by a trailing run of separators: the word, then the run's empty piece. */
  lemma SplitOnRunsOfLastWord(w: string, trail: string)
    requires NoSeparator(w) && AllSeparators(trail)
    ensures SplitOnRuns(w + trail) == [w] + EdgePiece(trail)
  {
    if trail != [] {
      SplitOnRunsAfterRun(trail, []);
      assert trail + [] == trail;
    }
    assert SplitOnRuns(trail) == [""] + EdgePiece(trail);
    SplitOnRunsOfWord(w, trail);
    assert w + "" == w;
  }

  /** A word, a run of separators, then a string that starts with a word: the first word,
      then the pieces of the rest. */
  lemma SplitOnRunsStep(w: string, sep: string, rest: string)
    requires NoSeparator(w) && sep != [] && AllSeparators(sep)
    requires rest != [] && !IsSeparator(rest[0])
    ensures SplitOnRuns(w + (sep + rest)) == [w] + SplitOnRuns(rest)
  {
    SplitOnRunsAfterRun(sep, rest);
    SplitOnRunsOfWord(w, sep + rest);
    assert w + "" == w;
  }

  lemma TailWords(ws: seq<string>)
    requires ws != [] && Words(ws)
    ensures Words(ws[1..])
  {
    forall k | 0 <= k < |ws| - 1 ensures ws[1..][k] != [] && NoSeparator(ws[1..][k]) {
      assert ws[1..][k] == ws[k + 1];
    }
  }

  lemma TailSeparatorRuns(seps: seq<string>)
    requires seps != [] && SeparatorRuns(seps)
    ensures SeparatorRuns(seps[1..])
  {
    forall k | 0 <= k < |seps| - 1 ensures seps[1..][k] != [] && AllSeparators(seps[1..][k]) {
      assert seps[1..][k] == seps[k + 1];
    }
  }

  /** Joined words start with the first letter of the first word. */
  lemma JoinRunsStart(ws: seq<string>, seps: seq<string>, trail: string)
    requires |ws| == |seps| + 1 && ws[0] != []
    ensures JoinRuns(ws, seps) + trail != [] && (JoinRuns(ws, seps) + trail)[0] == ws[0][0]
  {
    assert ws[0] <= JoinRuns(ws, seps);
  }

  /** Joined words with a trailing run, taken apart at the first word and run. */
  lemma JoinRunsCons(ws: seq<string>, seps: seq<string>, trail: string)
    requires |ws| == |seps| + 1 && seps != []
    ensures JoinRuns(ws, seps) + trail == ws[0] + (seps[0] + (JoinRuns(ws[1..], seps[1..]) + trail))
  {
  }

  lemma ConsPieces(ws: seq<string>, after: seq<string>)
    requires ws != []
    ensures [ws[0]] + (ws[1..] + after) == ws + after
  {
    assert ws == [ws[0]] + ws[1..];
  }

  /** The inductive step of SplitOnRunsOfJoinRuns: one more word and run in front. */
  lemma SplitOnRunsOfJoinRunsStep(ws: seq<string>, seps: seq<string>, trail: string)
    requires |ws| == |seps| + 1 && seps != []
    requires NoSeparator(ws[0]) && ws[1] != [] && seps[0] != [] && AllSeparators(seps[0])
    requires SplitOnRuns(JoinRuns(ws[1..], seps[1..]) + trail) == ws[1..] + EdgePiece(trail)
    ensures SplitOnRuns(JoinRuns(ws, seps) + trail) == ws + EdgePiece(trail)
  {
    var rest := JoinRuns(ws[1..], seps[1..]) + trail;
    JoinRunsStart(ws[1..], seps[1..], trail);
    SplitOnRunsStep(ws[0], seps[0], rest);
    JoinRunsCons(ws, seps, trail);
    ConsPieces(ws, EdgePiece(trail));
  }

  /** Words with separator runs between them, then a trailing run: splitting gives the words,
      and one empty piece more when the trailing run is not empty. */
  lemma {:induction false} SplitOnRunsOfJoinRuns(ws: seq<string>, seps: seq<string>, trail: string)
    requires |ws| == |seps| + 1 && Words(ws) && SeparatorRuns(seps) && AllSeparators(trail)
    ensures SplitOnRuns(JoinRuns(ws, seps) + trail) == ws + EdgePiece(trail)
    decreases |seps|
  {
    if seps == [] {
      SplitOnRunsOfLastWord(ws[0], trail);
      assert ws == [ws[0]];
    } else {
      TailWords(ws);
      TailSeparatorRuns(seps);
      SplitOnRunsOfJoinRuns(ws[1..], seps[1..], trail);
      SplitOnRunsOfJoinRunsStep(ws, seps, trail);
    }
  }

  /** The pieces of any string that has a part: an empty piece for a leading run of
      separators, then the words, then an empty piece for a trailing run. */
  lemma SplitOnRunsOfRuns(lead: string, ws: seq<string>, seps: seq<string>, trail: string)
    requires |ws| == |seps| + 1 && Words(ws) && SeparatorRuns(seps)
    requires AllSeparators(lead) && AllSeparators(trail)
    ensures SplitOnRuns(lead + JoinRuns(ws, seps) + trail) == EdgePiece(lead) + ws + EdgePiece(trail)
  {
    var body := JoinRuns(ws, seps) + trail;
    SplitOnRunsOfJoinRuns(ws, seps, trail);
    assert body[0] == ws[0][0] by {
      assert ws[0] <= JoinRuns(ws, seps) && ws[0] != [];
    }
    assert lead + JoinRuns(ws, seps) + trail == lead + body;
    if lead != [] {
      SplitOnRunsAfterRun(lead, body);
    } else {
      assert lead + body == body;
    }
    assert EdgePiece(lead) + ws + EdgePiece(trail) == EdgePiece(lead) + (ws + EdgePiece(trail));
  }

  /** filter(Boolean) keeps a sequence of non-empty strings as it is. */
  lemma {:induction false} NonEmptyOfNonEmpty(ps: seq<string>)
    requires forall k :: 0 <= k < |ps| ==> ps[k] != []
    ensures NonEmpty(ps) == ps
  {
    if ps != [] {
      NonEmptyOfNonEmpty(ps[1..]);
    }
  }

  /** filter(Boolean) distributes over concatenation. */
  lemma {:induction false} NonEmptyAppend(a: seq<string>, b: seq<string>)
    ensures NonEmpty(a + b) == NonEmpty(a) + NonEmpty(b)
  {
    if a == [] {
      assert a + b == b;
    } else {
      assert (a + b)[0] == a[0] && (a + b)[1..] == a[1..] + b;
      NonEmptyAppend(a[1..], b);
    }
  }

  /** The parts of words separated by runs of separators, with separator runs (possibly
      empty) before and after them, are exactly those words. */
  lemma PartsOfRuns(lead: string, ws: seq<string>, seps: seq<string>, trail: string)
    requires |ws| == |seps| + 1 && Words(ws) && SeparatorRuns(seps)
    requires AllSeparators(lead) && AllSeparators(trail)
    ensures Parts(lead + JoinRuns(ws, seps) + trail) == ws
  {
    var before, after := EdgePiece(lead), EdgePiece(trail);
    SplitOnRunsOfRuns(lead, ws, seps, trail);
    NonEmptyAppend(before + ws, after);
    NonEmptyAppend(before, ws);
    NonEmptyOfNonEmpty(ws);
    assert [""][1..] == [];
    assert NonEmpty(before) == [] && NonEmpty(after) == [];
  }

  /** The longest separator-free prefix of `s`. */
  function WordPrefix(s: string): (w: string)
    ensures w <= s && NoSeparator(w)
    ensures |w| == |s| || IsSeparator(s[|w|])
  {
    if s == [] || IsSeparator(s[0]) then [] else [s[0]] + WordPrefix(s[1..])
  }

  /** A separator put in front of a decomposed string joins its leading run. */
  lemma ConsSeparator(c: char, lead: string, ws: seq<string>, seps: seq<string>, trail: string)
    requires IsSeparator(c) && AllSeparators(lead) && |ws| == |seps| + 1
    ensures AllSeparators([c] + lead)
    ensures [c] + (lead + JoinRuns(ws, seps) + trail) == ([c] + lead) + JoinRuns(ws, seps) + trail
  {
    AllSeparatorsTail([c] + lead);
    assert ([c] + lead)[1..] == lead;
  }

  /** A word put in front of a decomposed string that starts with a separator becomes its
      first word, and the leading run the first run between words. */
  lemma ConsWord(w: string, lead: string, ws: seq<string>, seps: seq<string>, trail: string)
    requires w != [] && NoSeparator(w) && Words(ws)
    requires lead != [] && AllSeparators(lead) && |ws| == |seps| + 1 && SeparatorRuns(seps)
    ensures Words([w] + ws) && SeparatorRuns([lead] + seps)
    ensures w + (lead + JoinRuns(ws, seps) + trail) == JoinRuns([w] + ws, [lead] + seps) + trail
  {
    var ws2, seps2 := [w] + ws, [lead] + seps;
    assert ws2[0] == w && ws2[1..] == ws && seps2[0] == lead && seps2[1..] == seps;
    forall k | 0 <= k < |ws2| ensures ws2[k] != [] && NoSeparator(ws2[k]) {
      if k > 0 {
        assert ws2[k] == ws[k - 1];
      }
    }
    forall k | 0 <= k < |seps2| ensures seps2[k] != [] && AllSeparators(seps2[k]) {
      if k > 0 {
        assert seps2[k] == seps[k - 1];
      }
    }
  }

  /** A separator in front of a decomposed string joins its leading run. */
  lemma DecomposeAfterSeparator(s: string, lead: string, ws: seq<string>, seps: seq<string>, trail: string)
    requires s != [] && IsSeparator(s[0])
    requires |ws| == |seps| + 1 && Words(ws) && SeparatorRuns(seps)
    requires AllSeparators(lead) && AllSeparators(trail)
    requires s[1..] == lead + JoinRuns(ws, seps) + trail
    ensures AllSeparators([s[0]] + lead)
    ensures s == ([s[0]] + lead) + JoinRuns(ws, seps) + trail
    ensures Parts(s) == ws
  {
    ConsSeparator(s[0], lead, ws, seps, trail);
    assert s == [s[0]] + s[1..];
    PartsOfRuns([s[0]] + lead, ws, seps, trail);
  }

  /** A word in front of a decomposed string that starts with a separator becomes its first
      word. */
  lemma DecomposeAfterWord(s: string, w: string, lead: string, ws: seq<string>, seps: seq<string>, trail: string)
    requires w != [] && NoSeparator(w)
    requires |ws| == |seps| + 1 && Words(ws) && SeparatorRuns(seps)
    requires lead != [] && AllSeparators(lead) && AllSeparators(trail)
    requires s == w + (lead + JoinRuns(ws, seps) + trail)
    ensures SeparatorRuns([lead] + seps)
    ensures s == [] + JoinRuns([w] + ws, [lead] + seps) + trail
    ensures Parts(s) == [w] + ws
  {
    ConsWord(w, lead, ws, seps, trail);
    assert s == [] + JoinRuns([w] + ws, [lead] + seps) + trail;
    PartsOfRuns([], [w] + ws, [lead] + seps, trail);
  }

  /** A single word followed by a trailing run. */
  lemma DecomposeLastWord(s: string, w: string, trail: string)
    requires w != [] && NoSeparator(w) && AllSeparators(trail)
    requires s == w + trail
    ensures s == [] + JoinRuns([w], []) + trail
    ensures Parts(s) == [w]
  {
    assert s == [] + JoinRuns([w], []) + trail;
    assert Words([w]);
    PartsOfRuns([], [w], [], trail);
  }

  /** Every string with a non-separator splits as a leading run of separators, its parts
      with a non-empty run of separators between each two, and a trailing run. With
      PartsOfRuns this makes the parts exactly the maximal separator-free runs of any input. */
  lemma {:induction false} PartsAreRuns(s: string) returns (lead: string, seps: seq<string>, trail: string)
    requires !AllSeparators(s)
    ensures AllSeparators(lead) && SeparatorRuns(seps) && AllSeparators(trail)
    ensures IsSeparator(s[0]) ==> lead != []
    ensures |Parts(s)| == |seps| + 1 && s == lead + JoinRuns(Parts(s), seps) + trail
    decreases |s|
  {
    if IsSeparator(s[0]) {
      AllSeparatorsTail(s);
      var lead', seps', trail' := PartsAreRuns(s[1..]);
      DecomposeAfterSeparator(s, lead', Parts(s[1..]), seps', trail');
      lead, seps, trail := [s[0]] + lead', seps', trail';
    } else {
      var w := WordPrefix(s);
      assert w != [] && w[0] == s[0];
      var v := s[|w|..];
      assert s == w + v;
      if AllSeparators(v) {
        DecomposeLastWord(s, w, v);
        lead, seps, trail := [], [], v;
      } else {
        var lead', seps', trail' := PartsAreRuns(v);
        DecomposeAfterWord(s, w, lead', Parts(v), seps', trail');
        lead, seps, trail := [], [lead'] + seps', trail';
      }
    }
  }

  lemma {:induction false} ConcatCons(p: string, ps: seq<string>)
    ensures Concat([p] + ps) == p + Concat(ps)
  {
    assert ([p] + ps)[0] == p && ([p] + ps)[1..] == ps;
  }

  /** Dropping empty pieces does not change their concatenation. */
  lemma {:induction false} ConcatOfNonEmpty(ps: seq<string>)
    ensures Concat(NonEmpty(ps)) == Concat(ps)
  {
    if ps != [] {
      ConcatOfNonEmpty(ps[1..]);
      if ps[0] != [] {
        ConcatCons(ps[0], NonEmpty(ps[1..]));
      } else {
        assert [] + NonEmpty(ps[1..]) == NonEmpty(ps[1..]);
      }
    }
  }

  /** A leading run of separators contributes nothing once separators are deleted. */
  lemma {:induction false} RemoveSeparatorsOfDrop(s: string)
    ensures RemoveSeparators(DropSeparators(s)) == RemoveSeparators(s)
  {
    if s != [] && IsSeparator(s[0]) {
      RemoveSeparatorsOfDrop(s[1..]);
    }
  }

  lemma {:induction false} ConcatOfSplitOnRuns(s: string)
    ensures Concat(SplitOnRuns(s)) == RemoveSeparators(s)
    decreases |s|
  {
    if s == [] {
    } else if IsSeparator(s[0]) {
      var rest := DropSeparators(s);
      ConcatOfSplitOnRuns(rest);
      ConcatCons("", SplitOnRuns(rest));
      RemoveSeparatorsOfDrop(s);
    } else {
      var r := SplitOnRuns(s[1..]);
      ConcatOfSplitOnRuns(s[1..]);
      ConcatCons([s[0]] + r[0], r[1..]);
      assert r == [r[0]] + r[1..];
      ConcatCons(r[0], r[1..]);
    }
  }

  /** Concatenating the parts gives the input with its separators deleted: no character is
      lost, gained or reordered. */
  lemma PartsConcat(s: string)
    ensures Concat(Parts(s)) == RemoveSeparators(s)
  {
    ConcatOfNonEmpty(SplitOnRuns(s));
    ConcatOfSplitOnRuns(s);
  }

  lemma {:induction false} RemoveSeparatorsEmpty(s: string)
    ensures RemoveSeparators(s) == [] <==> AllSeparators(s)
  {
    if s != [] {
      RemoveSeparatorsEmpty(s[1..]);
      if !IsSeparator(s[0]) {
        assert RemoveSeparators(s)[0] == s[0];
      } else {
        assert AllSeparators(s[1..]) ==> AllSeparators(s) by {
          if AllSeparators(s[1..]) {
            forall i | 0 <= i < |s| ensures IsSeparator(s[i]) {
              if i > 0 {
                assert s[i] == s[1..][i - 1];
              }
            }
          }
        }
      }
    }
  }

  /** There are no parts exactly when the input consists of separators only. */
  lemma PartsEmptyIff(s: string)
    ensures Parts(s) == [] <==> AllSeparators(s)
  {
    PartsConcat(s);
    RemoveSeparatorsEmpty(s);
    var ps := Parts(s);
    if ps != [] {
      ConcatCons(ps[0], ps[1..]);
      assert ps == [ps[0]] + ps[1..];
    }
  }

  // ---- The three outcomes of getInitialsFromParticipant ----

  /** No character of the separator class is a letter, a digit or '@'. */
  lemma SeparatorIsNoLetter(c: char)
    requires IsSeparator(c)
    ensures c != '@' && !('a' <= c <= 'z') && !('A' <= c <= 'Z') && !('0' <= c <= '9')
  {
  }

  /** A run of separators holds no '@'. */
  lemma SeparatorsHaveNoAt(sep: string)
    requires AllSeparators(sep)
    ensures '@' !in sep
  {
    forall i | 0 <= i < |sep| ensures sep[i] != '@' {
      SeparatorIsNoLetter(sep[i]);
    }
  }

  lemma {:induction false} JoinRunsHasNoAt(ws: seq<string>, seps: seq<string>)
    requires |ws| == |seps| + 1 && SeparatorRuns(seps)
    requires forall k :: 0 <= k < |ws| ==> '@' !in ws[k]
    ensures '@' !in JoinRuns(ws, seps)
    decreases |seps|
  {
    if seps != [] {
      assert SeparatorRuns(seps[1..]) by {
        forall k | 0 <= k < |seps| - 1 ensures seps[1..][k] != [] && AllSeparators(seps[1..][k]) {
          assert seps[1..][k] == seps[k + 1];
        }
      }
      assert forall k :: 0 <= k < |ws| - 1 ==> ws[1..][k] == ws[k + 1];
      JoinRunsHasNoAt(ws[1..], seps[1..]);
      SeparatorsHaveNoAt(seps[0]);
    }
  }

  /** A name of two or more words, whatever separator runs surround and divide them, gives the
      upper-cased first letters of its first two words, with or without a domain after it. */
  lemma InitialsOfWords(lead: string, ws: seq<string>, seps: seq<string>, trail: string, domain: string)
    requires |ws| >= 2 && |ws| == |seps| + 1 && Words(ws) && SeparatorRuns(seps)
    requires AllSeparators(lead) && AllSeparators(trail)
    requires forall k :: 0 <= k < |ws| ==> '@' !in ws[k]
    ensures Initials(lead + JoinRuns(ws, seps) + trail) == [UpperChar(ws[0][0]), UpperChar(ws[1][0])]
    ensures Initials(lead + JoinRuns(ws, seps) + trail + "@" + domain) == [UpperChar(ws[0][0]), UpperChar(ws[1][0])]
  {
    var name := lead + JoinRuns(ws, seps) + trail;
    JoinRunsHasNoAt(ws, seps);
    SeparatorsHaveNoAt(lead);
    SeparatorsHaveNoAt(trail);
    assert '@' !in name;
    BeforeFirstAtOfEmail(name, domain);
    PartsOfRuns(lead, ws, seps, trail);
    assert ws[0] <= JoinRuns(ws, seps) && name != "";
    assert Initials(name) == ToUpper([ws[0][0], ws[1][0]]);
    InitialsIgnoreDomain(name, domain);
  }

  /** A single word, whatever separator runs surround it, gives its first two characters (or
      fewer) upper-cased, with or without a domain after it. */
  lemma InitialsOfOneWord(lead: string, w: string, trail: string, domain: string)
    requires w != [] && NoSeparator(w) && '@' !in w
    requires AllSeparators(lead) && AllSeparators(trail)
    ensures Initials(lead + w + trail) == ToUpper(Prefix(w, 2))
    ensures Initials(lead + w + trail + "@" + domain) == ToUpper(Prefix(w, 2))
  {
    var name := lead + w + trail;
    SeparatorsHaveNoAt(lead);
    SeparatorsHaveNoAt(trail);
    assert '@' !in name;
    BeforeFirstAtOfEmail(name, domain);
    assert JoinRuns([w], []) == w;
    PartsOfRuns(lead, [w], [], trail);
    assert name != "" by {
      assert name[|lead|] == w[0];
    }
    InitialsIgnoreDomain(name, domain);
  }

  /** An input made of separators only has no parts and keeps its first two characters
      unchanged, separators being no letters. */
  lemma InitialsOfSeparators(s: string)
    requires AllSeparators(s)
    ensures Initials(s) == Prefix(s, 2)
  {
    if s != [] {
      assert '@' !in s by {
        forall i | 0 <= i < |s| ensures s[i] != '@' {
          assert IsSeparator(s[i]);
        }
      }
      BeforeFirstAtOfEmail(s, "");
      PartsEmptyIff(s);
      var p := Prefix(s, 2);
      assert forall i :: 0 <= i < |p| ==> p[i] == s[i];
    }
  }

  /** The seeded rosters' email style: "michael@mergington.edu" shows "MI". */
  lemma InitialsOfSeedEmail()
    ensures Initials("michael@mergington.edu") == "MI"
  {
    assert "" + "michael" + "" + "@" + "mergington.edu" == "michael@mergington.edu";
    InitialsOfOneWord("", "michael", "", "mergington.edu");
    assert ToUpper(Prefix("michael", 2)) == "MI";
  }

  /** Leading, doubled and mixed separators are skipped: "-ann..lee@x" shows "AL". */
  lemma InitialsOfPunctuatedEmail()
    ensures Initials("-ann..lee@x") == "AL"
  {
    assert JoinRuns(["ann", "lee"], [".."]) == "ann..lee";
    assert "-" + "ann..lee" + "" + "@" + "x" == "-ann..lee@x";
    InitialsOfWords("-", ["ann", "lee"], [".."], "", "x");
  }
}
