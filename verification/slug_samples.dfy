/**
 * Titles worked through `slugify` stage by stage: capitals are lowered,
 * surrounding white space is trimmed, punctuation is dropped, white-space
 * runs become one hyphen and hyphen runs are squeezed to one. Each shape is
 * proved for all words first and then instantiated at a concrete title.
 */
module SlugSamples {
  import opened Text
  import opened Slugs

  /** Every character of `s` satisfies `P`. */
  ghost predicate AllChars(s: string, P: char -> bool) {
    forall i :: 0 <= i < |s| ==> P(s[i])
  }

  lemma AllCharsAppend(a: string, b: string, P: char -> bool)
    requires AllChars(a, P) && AllChars(b, P)
    ensures AllChars(a + b, P)
  {
    forall i | 0 <= i < |a + b|
      ensures P((a + b)[i])
    {
      if i < |a| {
        assert (a + b)[i] == a[i];
      } else {
        assert (a + b)[i] == b[i - |a|];
      }
    }
  }

  /** A lower-case word: letters and digits only, no hyphen and no white space. */
  predicate IsWord(w: string) {
    forall i :: 0 <= i < |w| ==> 'a' <= w[i] <= 'z' || '0' <= w[i] <= '9'
  }

  lemma WordIsSlug(w: string)
    requires IsWord(w)
    ensures IsSlug(w)
    ensures forall i :: 0 <= i < |w| ==> w[i] != '-' && !IsSpace(w[i]) && !IsAsciiUpper(w[i])
    ensures forall i :: 0 <= i < |w| ==> w[i] != '\U{0130}' && w[i] != '\U{212A}'
  {
  }

  /** A capital letter lowers to one small letter. */
  lemma LowerCapital(c: char)
    requires IsAsciiUpper(c)
    ensures |LowerChar(c)| == 1 && IsWord(LowerChar(c))
    ensures Lower([c]) == LowerChar(c)
  {
    assert [c][1..] == [];
  }

  // ---------------------------------------------------------------------
  // Capitalised words separated by punctuation and one space
  // ---------------------------------------------------------------------

  /**
   * Two capitalised words, each followed by punctuation, with one space
   * between them: the words are lowered and joined by one hyphen, and the
   * punctuation disappears.
   */
  lemma SlugifyCapitalisedPair(c1: char, w1: string, p1: string, c2: char, w2: string, p2: string)
    requires IsAsciiUpper(c1) && IsAsciiUpper(c2) && IsWord(w1) && IsWord(w2)
    requires forall i :: 0 <= i < |p1| ==> IsPunctuation(p1[i])
    requires p2 != [] && forall i :: 0 <= i < |p2| ==> IsPunctuation(p2[i])
    ensures Slugify(([c1] + w1 + p1) + " " + ([c2] + w2 + p2)) == (LowerChar(c1) + w1) + "-" + (LowerChar(c2) + w2)
  {
    var a, b := [c1] + w1 + p1, [c2] + w2 + p2;
    var u1, u2 := LowerChar(c1) + w1, LowerChar(c2) + w2;
    ChunkLower(c1, w1, p1);
    ChunkLower(c2, w2, p2);
    CapitalWord(c1, w1);
    CapitalWord(c2, w2);
    LowerAppend(a + " ", b);
    LowerAppend(a, " ");
    LowerKeeps(" ");
    PairTrim(u1, p1, u2, p2);
    PairKeep(u1, p1, u2, p2);
    PairHyphenate(u1, u2);
    PairSqueeze(u1, u2);
  }

  /** A capitalised word and its punctuation lowers to the small word and the same punctuation. */
  lemma ChunkLower(c: char, w: string, p: string)
    requires IsAsciiUpper(c) && IsWord(w)
    requires forall i :: 0 <= i < |p| ==> IsPunctuation(p[i])
    ensures Lower([c] + w + p) == LowerChar(c) + w + p
  {
    WordIsSlug(w);
    LowerAppend([c] + w, p);
    LowerAppend([c], w);
    LowerCapital(c);
    LowerKeeps(w);
    LowerKeeps(p);
  }

  /** A lowered capital followed by a word is a non-empty word. */
  lemma CapitalWord(c: char, w: string)
    requires IsAsciiUpper(c) && IsWord(w)
    ensures IsWord(LowerChar(c) + w) && LowerChar(c) + w != []
  {
    LowerCapital(c);
    WordsJoin(LowerChar(c), w);
  }

  lemma WordsJoin(a: string, b: string)
    requires IsWord(a) && IsWord(b)
    ensures IsWord(a + b)
  {
    assert forall i :: 0 <= i < |a| ==> (a + b)[i] == a[i];
    assert forall i :: |a| <= i < |a + b| ==> (a + b)[i] == b[i - |a|];
  }

  lemma PairTrim(u1: string, p1: string, u2: string, p2: string)
    requires u1 != [] && IsWord(u1)
    requires p2 != [] && forall i :: 0 <= i < |p2| ==> IsPunctuation(p2[i])
    ensures Trim((u1 + p1) + " " + (u2 + p2)) == (u1 + p1) + " " + (u2 + p2)
  {
    var s := (u1 + p1) + " " + (u2 + p2);
    WordIsSlug(u1);
    assert s[0] == u1[0];
    assert s[|s| - 1] == p2[|p2| - 1];
    assert !IsSpace(s[0]) && !IsSpace(s[|s| - 1]);
    TrimKeeps(s);
  }

  lemma PairKeep(u1: string, p1: string, u2: string, p2: string)
    requires IsWord(u1) && IsWord(u2)
    requires forall i :: 0 <= i < |p1| ==> IsPunctuation(p1[i])
    requires forall i :: 0 <= i < |p2| ==> IsPunctuation(p2[i])
    ensures KeepSlugChars((u1 + p1) + " " + (u2 + p2)) == u1 + " " + u2
  {
    KeepAroundSpace(u1 + p1, u2 + p2);
    ChunkKeep(u1, p1);
    ChunkKeep(u2, p2);
  }

  /** The space between two chunks is kept. */
  lemma KeepAroundSpace(a: string, b: string)
    ensures KeepSlugChars(a + " " + b) == KeepSlugChars(a) + " " + KeepSlugChars(b)
  {
    KeepSlugCharsAppend(a + " ", b);
    KeepSlugCharsAppend(a, " ");
    assert KeepSlugChars(" ") == " ";
  }

  /** Of a word and its punctuation only the word is kept. */
  lemma ChunkKeep(u: string, p: string)
    requires IsWord(u)
    requires forall i :: 0 <= i < |p| ==> IsPunctuation(p[i])
    ensures KeepSlugChars(u + p) == u
  {
    KeepSlugCharsAppend(u, p);
    WordIsSlug(u);
    KeepSlugCharsKeeps(u);
    KeepSlugCharsDropsAll(p);
    assert u + [] == u;
  }

  lemma PairHyphenate(u1: string, u2: string)
    requires IsWord(u1) && IsWord(u2)
    ensures HyphenateSpaces(u1 + " " + u2, false) == u1 + "-" + u2
  {
    WordIsSlug(u1);
    WordIsSlug(u2);
    HyphenateSpacesAppend(u1 + " ", u2, false);
    TrailingHyphenate(u1);
    assert SpaceRunAfter(u1 + " ", false);
    HyphenateSpacesKeeps(u2, true);
  }

  lemma PairSqueeze(u1: string, u2: string)
    requires u1 != [] && IsWord(u1) && IsWord(u2)
    ensures SqueezeHyphens(u1 + "-" + u2, false) == u1 + "-" + u2
  {
    var s := u1 + "-" + u2;
    WordIsSlug(u1);
    WordIsSlug(u2);
    assert forall i :: 0 <= i < |u1| ==> s[i] == u1[i];
    assert forall i :: |u1| < i < |s| ==> s[i] == u2[i - |u1| - 1];
    assert NoDoubleHyphen(s);
    SqueezeHyphensKeeps(s, false);
  }

  /** `slugify("Hello, World!") == "hello-world"`. */
  lemma SlugifyHelloWorld(title: string)
    requires title == "Hello, World!"
    ensures Slugify(title) == "hello-world"
  {
    var w1, w2 := "ello", "orld";
    assert title == (['H'] + w1 + ",") + " " + (['W'] + w2 + "!");
    assert (LowerChar('H') + w1) + "-" + (LowerChar('W') + w2) == "hello-world";
    assert IsWord(w1) && IsWord(w2);
    assert IsPunctuation(',') && IsPunctuation('!');
    SlugifyCapitalisedPair('H', w1, ",", 'W', w2, "!");
  }

  // ---------------------------------------------------------------------
  // Lower-case words separated by white-space and hyphen runs
  // ---------------------------------------------------------------------

  function KeepsCase(): char -> bool {
    (c: char) => !IsAsciiUpper(c) && c != '\U{0130}' && c != '\U{212A}'
  }

  function SlugOrSpace(): char -> bool {
    (c: char) => IsSlugChar(c) || IsSpace(c)
  }

  /** A run of white space becomes one hyphen, or nothing when a run is already open. */
  lemma {:induction false} BlankRunHyphen(gap: string)
    requires IsBlank(gap)
    ensures HyphenateSpaces(gap, true) == []
    ensures gap != [] ==> HyphenateSpaces(gap, false) == "-"
  {
    if gap != [] {
      BlankRunHyphen(gap[1..]);
    }
  }

  /** A run of hyphens becomes one hyphen, or nothing when a run is already open. */
  lemma {:induction false} HyphenRunSqueeze(dashes: string)
    requires forall i :: 0 <= i < |dashes| ==> dashes[i] == '-'
    ensures SqueezeHyphens(dashes, true) == []
    ensures dashes != [] ==> SqueezeHyphens(dashes, false) == "-"
  {
    if dashes != [] {
      HyphenRunSqueeze(dashes[1..]);
    }
  }

  /** White space and letters have no other lower case, and slugify keeps both. */
  lemma SpacedChars(s: string)
    requires IsBlank(s) || IsWord(s) || forall i :: 0 <= i < |s| ==> s[i] == '-'
    ensures AllChars(s, KeepsCase()) && AllChars(s, SlugOrSpace())
  {
  }

  /**
   * Words separated by a run of white space and then by a run of hyphens,
   * with white space around them: the white space around is trimmed and
   * each run becomes one hyphen.
   */
  lemma SlugifySpacedWords(before: string, w1: string, gap: string, w2: string, dashes: string, w3: string, after: string)
    requires IsBlank(before) && IsBlank(after) && gap != [] && IsBlank(gap)
    requires w1 != [] && w2 != [] && w3 != [] && IsWord(w1) && IsWord(w2) && IsWord(w3)
    requires dashes != [] && forall i :: 0 <= i < |dashes| ==> dashes[i] == '-'
    ensures Slugify(before + (w1 + gap + (w2 + dashes + w3)) + after) == w1 + "-" + w2 + "-" + w3
  {
    var rest := w2 + dashes + w3;
    var m := w1 + gap + rest;
    SpacedMiddle(w1, gap, w2, dashes, w3);
    SpacedLower(before, m, after);
    TrimAround(before, m, after);
    KeepSlugCharsKeeps(m);
    SpacedHyphenate(w1, gap, rest);
    SpacedSqueeze(w1, w2, dashes, w3);
  }

  /** The words and runs between the surrounding white space: no capitals, nothing slugify drops, words at both ends. */
  lemma SpacedMiddle(w1: string, gap: string, w2: string, dashes: string, w3: string)
    requires IsBlank(gap) && w1 != [] && w3 != [] && IsWord(w1) && IsWord(w2) && IsWord(w3)
    requires forall i :: 0 <= i < |dashes| ==> dashes[i] == '-'
    ensures var m := w1 + gap + (w2 + dashes + w3);
      && AllChars(m, KeepsCase()) && AllChars(m, SlugOrSpace())
      && m != [] && !IsSpace(m[0]) && !IsSpace(m[|m| - 1])
      && (forall i :: 0 <= i < |m| ==> IsSlugChar(m[i]) || IsSpace(m[i]))
      && (forall i :: 0 <= i < |w2 + dashes + w3| ==> !IsSpace((w2 + dashes + w3)[i]))
  {
    var rest := w2 + dashes + w3;
    var m := w1 + gap + rest;
    SpacedChars(w1);
    SpacedChars(gap);
    SpacedChars(w2);
    SpacedChars(dashes);
    SpacedChars(w3);
    AllCharsAppend(w2, dashes, KeepsCase());
    AllCharsAppend(w2 + dashes, w3, KeepsCase());
    AllCharsAppend(w1, gap, KeepsCase());
    AllCharsAppend(w1 + gap, rest, KeepsCase());
    AllCharsAppend(w2, dashes, SlugOrSpace());
    AllCharsAppend(w2 + dashes, w3, SlugOrSpace());
    AllCharsAppend(w1, gap, SlugOrSpace());
    AllCharsAppend(w1 + gap, rest, SlugOrSpace());
    WordIsSlug(w1);
    WordIsSlug(w2);
    WordIsSlug(w3);
    assert m[0] == w1[0];
    assert m[|m| - 1] == w3[|w3| - 1];
    assert forall i :: 0 <= i < |m| ==> SlugOrSpace()(m[i]);
    forall i | 0 <= i < |rest|
      ensures !IsSpace(rest[i])
    {
      if i < |w2| {
        assert rest[i] == w2[i];
      } else if i < |w2| + |dashes| {
        assert rest[i] == dashes[i - |w2|];
      } else {
        assert rest[i] == w3[i - |w2| - |dashes|];
      }
    }
  }

  lemma SpacedLower(before: string, m: string, after: string)
    requires IsBlank(before) && IsBlank(after) && AllChars(m, KeepsCase())
    ensures Lower(before + m + after) == before + m + after
  {
    SpacedChars(before);
    SpacedChars(after);
    AllCharsAppend(before, m, KeepsCase());
    AllCharsAppend(before + m, after, KeepsCase());
    var s := before + m + after;
    assert forall i :: 0 <= i < |s| ==> KeepsCase()(s[i]);
    LowerKeeps(s);
  }

  lemma SpacedHyphenate(w1: string, gap: string, rest: string)
    requires IsWord(w1) && gap != [] && IsBlank(gap)
    requires forall i :: 0 <= i < |rest| ==> !IsSpace(rest[i])
    ensures HyphenateSpaces(w1 + gap + rest, false) == w1 + "-" + rest
  {
    WordThenGap(w1, gap);
    HyphenateSpacesAppend(w1 + gap, rest, false);
    HyphenateSpacesKeeps(rest, true);
  }

  /** A word and then a white-space run become the word and one hyphen, and leave the run open. */
  lemma WordThenGap(w: string, gap: string)
    requires IsWord(w) && gap != [] && IsBlank(gap)
    ensures HyphenateSpaces(w + gap, false) == w + "-"
    ensures SpaceRunAfter(w + gap, false)
  {
    WordIsSlug(w);
    BlankRunHyphen(gap);
    HyphenateSpacesKeeps(w, false);
    HyphenateSpacesAppend(w, gap, false);
    assert (w + gap)[|w + gap| - 1] == gap[|gap| - 1];
  }

  lemma SpacedSqueeze(w1: string, w2: string, dashes: string, w3: string)
    requires w1 != [] && w2 != [] && w3 != [] && IsWord(w1) && IsWord(w2) && IsWord(w3)
    requires dashes != [] && forall i :: 0 <= i < |dashes| ==> dashes[i] == '-'
    ensures SqueezeHyphens(w1 + "-" + (w2 + dashes + w3), false) == w1 + "-" + w2 + "-" + w3
  {
    WordThenHyphen(w1);
    WordRunWord(w2, dashes, w3);
    SqueezeHyphensAppend(w1 + "-", w2 + dashes + w3, false);
    HyphenJoinRegroup(w1, w2, w3);
  }

  lemma HyphenJoinRegroup(a: string, b: string, c: string)
    ensures (a + "-") + ((b + "-") + c) == a + "-" + b + "-" + c
  {
  }

  /** A word and then a hyphen are kept, and leave a hyphen run open. */
  lemma WordThenHyphen(w: string)
    requires IsWord(w)
    ensures SqueezeHyphens(w + "-", false) == w + "-"
    ensures HyphenRunAfter(w + "-", false)
  {
    WordIsSlug(w);
    SqueezeHyphensKeeps(w, false);
    SqueezeHyphensAppend(w, "-", false);
  }

  /** Inside an open hyphen run, a word, a hyphen run and a word keep one hyphen between the words. */
  lemma WordRunWord(w2: string, dashes: string, w3: string)
    requires w2 != [] && w3 != [] && IsWord(w2) && IsWord(w3)
    requires dashes != [] && forall i :: 0 <= i < |dashes| ==> dashes[i] == '-'
    ensures SqueezeHyphens(w2 + dashes + w3, true) == (w2 + "-") + w3
  {
    WordIsSlug(w2);
    WordIsSlug(w3);
    HyphenRunSqueeze(dashes);
    SqueezeHyphensKeeps(w2, true);
    SqueezeHyphensKeeps(w3, true);
    SqueezeHyphensAppend(w2, dashes, true);
    SqueezeHyphensAppend(w2 + dashes, w3, true);
    assert (w2 + dashes)[|w2 + dashes| - 1] == dashes[|dashes| - 1];
  }

  /** `slugify("  multiple   spaces--here ") == "multiple-spaces-here"`. */
  lemma SlugifyMultipleSpaces(title: string)
    requires title == "  multiple   spaces--here "
    ensures Slugify(title) == "multiple-spaces-here"
  {
    SpacedSamplePieces();
    assert title == "  " + ("multiple" + "   " + ("spaces" + "--" + "here")) + " ";
    assert "multiple" + "-" + "spaces" + "-" + "here" == "multiple-spaces-here";
    SlugifySpacedWords("  ", "multiple", "   ", "spaces", "--", "here", " ");
  }

  /** The pieces of the sample above meet the shape's requirements. */
  lemma SpacedSamplePieces()
    ensures IsBlank("  ") && IsBlank("   ") && IsBlank(" ")
    ensures IsWord("multiple") && IsWord("spaces") && IsWord("here")
    ensures forall i :: 0 <= i < |"--"| ==> "--"[i] == '-'
  {
  }
}
