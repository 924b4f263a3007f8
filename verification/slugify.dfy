/**
 * `slugify`, the title-to-URL transform that both the server action
 * (src/app/blog/actions.ts) and the post-form store
 * (src/stores/usePostFormStore.ts) define as the same transform:
 * lower-case, trim, drop every character outside `[a-z0-9\s-]`, turn each
 * run of white space into a hyphen, then squeeze each run of hyphens to one.
 */
module Slugs {
  import opened Text

  predicate IsSlugChar(c: char) {
    'a' <= c <= 'z' || '0' <= c <= '9' || c == '-'
  }

  predicate NoDoubleHyphen(s: string) {
    forall i :: 0 <= i < |s| - 1 ==> !(s[i] == '-' && s[i + 1] == '-')
  }

  /** What `slugify` can produce: slug characters only, never two hyphens in a row. */
  predicate IsSlug(s: string) {
    (forall i :: 0 <= i < |s| ==> IsSlugChar(s[i])) && NoDoubleHyphen(s)
  }

  /** `.replace(/[^a-z0-9\s-]/g, "")`. */
  function KeepSlugChars(s: string): (r: string)
    ensures |r| <= |s|
    ensures forall i :: 0 <= i < |r| ==> IsSlugChar(r[i]) || IsSpace(r[i])
  {
    if s == [] then []
    else (if IsSlugChar(s[0]) || IsSpace(s[0]) then [s[0]] else []) + KeepSlugChars(s[1..])
  }

  /** A string of slug characters and white space is kept whole. */
  lemma {:induction false} KeepSlugCharsKeeps(s: string)
    requires forall i :: 0 <= i < |s| ==> IsSlugChar(s[i]) || IsSpace(s[i])
    ensures KeepSlugChars(s) == s
  {
    if s != [] {
      KeepSlugCharsKeeps(s[1..]);
    }
  }

  /**
   * `.replace(/\s+/g, "-")`: every maximal run of white space becomes one
   * hyphen; `inRun` says the character before `s` was white space.
   */
  function HyphenateSpaces(s: string, inRun: bool): (r: string)
    ensures |r| <= |s|
  {
    if s == [] then []
    else if IsSpace(s[0]) then (if inRun then [] else ['-']) + HyphenateSpaces(s[1..], true)
    else [s[0]] + HyphenateSpaces(s[1..], false)
  }

  /** Once white space is replaced, only slug characters are left. */
  lemma {:induction false} HyphenateSpacesSlugChars(s: string, inRun: bool)
    requires forall i :: 0 <= i < |s| ==> IsSlugChar(s[i]) || IsSpace(s[i])
    ensures forall i :: 0 <= i < |HyphenateSpaces(s, inRun)| ==> IsSlugChar(HyphenateSpaces(s, inRun)[i])
  {
    if s != [] {
      var head := if IsSpace(s[0]) then (if inRun then [] else ['-']) else [s[0]];
      var rest := HyphenateSpaces(s[1..], IsSpace(s[0]));
      HyphenateSpacesSlugChars(s[1..], IsSpace(s[0]));
      var r := HyphenateSpaces(s, inRun);
      assert r == head + rest;
      forall i | 0 <= i < |r|
        ensures IsSlugChar(r[i])
      {
        if i < |head| {
          assert r[i] == head[i];
        } else {
          assert r[i] == rest[i - |head|];
        }
      }
    }
  }

  /** A string without white space is left alone. */
  lemma {:induction false} HyphenateSpacesKeeps(s: string, inRun: bool)
    requires forall i :: 0 <= i < |s| ==> !IsSpace(s[i])
    ensures HyphenateSpaces(s, inRun) == s
  {
    if s != [] {
      HyphenateSpacesKeeps(s[1..], false);
    }
  }

  /**
   * `.replace(/-+/g, "-")`: every maximal run of hyphens becomes one;
   * `inRun` says the character before `s` was a hyphen.
   */
  function SqueezeHyphens(s: string, inRun: bool): (r: string)
    ensures NoDoubleHyphen(r)
    ensures inRun && r != [] ==> r[0] != '-'
  {
    if s == [] then []
    else if s[0] == '-' then (if inRun then [] else ['-']) + SqueezeHyphens(s[1..], true)
    else [s[0]] + SqueezeHyphens(s[1..], false)
  }

  /** Squeezing keeps only characters already there, so slug characters stay slug characters. */
  lemma {:induction false} SqueezeHyphensSlugChars(s: string, inRun: bool)
    requires forall i :: 0 <= i < |s| ==> IsSlugChar(s[i])
    ensures forall i :: 0 <= i < |SqueezeHyphens(s, inRun)| ==> IsSlugChar(SqueezeHyphens(s, inRun)[i])
  {
    if s != [] {
      var head := if s[0] == '-' then (if inRun then [] else ['-']) else [s[0]];
      var rest := SqueezeHyphens(s[1..], s[0] == '-');
      SqueezeHyphensSlugChars(s[1..], s[0] == '-');
      var r := SqueezeHyphens(s, inRun);
      assert r == head + rest;
      forall i | 0 <= i < |r|
        ensures IsSlugChar(r[i])
      {
        if i < |head| {
          assert r[i] == head[i];
        } else {
          assert r[i] == rest[i - |head|];
        }
      }
    }
  }

  /** A string with no hyphen run, and no hyphen opening a run already open, is left alone. */
  lemma {:induction false} SqueezeHyphensKeeps(s: string, inRun: bool)
    requires NoDoubleHyphen(s) && !(inRun && s != [] && s[0] == '-')
    ensures SqueezeHyphens(s, inRun) == s
  {
    if s != [] {
      assert NoDoubleHyphen(s[1..]) by {
        forall i | 0 <= i < |s[1..]| - 1
          ensures !(s[1..][i] == '-' && s[1..][i + 1] == '-')
        {
          assert s[1..][i] == s[i + 1] && s[1..][i + 1] == s[i + 2];
        }
      }
      SqueezeHyphensKeeps(s[1..], s[0] == '-');
    }
  }

  function Slugify(title: string): (r: string)
    ensures IsSlug(r)
  {
    var kept := KeepSlugChars(Trim(Lower(title)));
    HyphenateSpacesSlugChars(kept, false);
    var hyphenated := HyphenateSpaces(kept, false);
    SqueezeHyphensSlugChars(hyphenated, false);
    SqueezeHyphens(hyphenated, false)
  }

  /** A string is left alone by `slugify` exactly when it already is a slug. */
  lemma SlugifyFixedPoints(s: string)
    ensures Slugify(s) == s <==> IsSlug(s)
  {
    if IsSlug(s) {
      assert forall i :: 0 <= i < |s| ==> !IsSpace(s[i]) && !IsAsciiUpper(s[i]);
      LowerKeeps(s);
      TrimKeeps(s);
      KeepSlugCharsKeeps(s);
      HyphenateSpacesKeeps(s, false);
      SqueezeHyphensKeeps(s, false);
    }
  }

  lemma SlugifyIdempotent(s: string)
    ensures Slugify(Slugify(s)) == Slugify(s)
  {
    SlugifyFixedPoints(Slugify(s));
  }

  lemma {:induction false} KeepSlugCharsAppend(a: string, b: string)
    ensures KeepSlugChars(a + b) == KeepSlugChars(a) + KeepSlugChars(b)
  {
    if a == [] {
      assert a + b == b;
    } else {
      assert (a + b)[1..] == a[1..] + b;
      KeepSlugCharsAppend(a[1..], b);
    }
  }

  /** Whether a white-space run is open after `a`, when one was open before it. */
  function SpaceRunAfter(a: string, inRun: bool): bool {
    if a == [] then inRun else IsSpace(a[|a| - 1])
  }

  lemma {:induction false} HyphenateSpacesAppend(a: string, b: string, inRun: bool)
    ensures HyphenateSpaces(a + b, inRun) == HyphenateSpaces(a, inRun) + HyphenateSpaces(b, SpaceRunAfter(a, inRun))
  {
    if a == [] {
      assert a + b == b;
    } else {
      assert (a + b)[1..] == a[1..] + b;
      HyphenateSpacesAppend(a[1..], b, IsSpace(a[0]));
    }
  }

  /** Whether a hyphen run is open after `a`, when one was open before it. */
  function HyphenRunAfter(a: string, inRun: bool): bool {
    if a == [] then inRun else a[|a| - 1] == '-'
  }

  lemma {:induction false} SqueezeHyphensAppend(a: string, b: string, inRun: bool)
    ensures SqueezeHyphens(a + b, inRun) == SqueezeHyphens(a, inRun) + SqueezeHyphens(b, HyphenRunAfter(a, inRun))
  {
    if a == [] {
      assert a + b == b;
    } else {
      assert (a + b)[1..] == a[1..] + b;
      SqueezeHyphensAppend(a[1..], b, a[0] == '-');
    }
  }

  lemma {:induction false} KeepSlugCharsDropsAll(s: string)
    requires forall i :: 0 <= i < |s| ==> !IsSlugChar(s[i]) && !IsSpace(s[i])
    ensures KeepSlugChars(s) == []
  {
    if s != [] {
      KeepSlugCharsDropsAll(s[1..]);
    }
  }

  /** No character `toLowerCase` changes, and none that slugify keeps. */
  predicate IsPunctuation(c: char) {
    !IsSlugChar(c) && !IsSpace(c) && !IsAsciiUpper(c) && c != '\U{0130}' && c != '\U{212A}'
  }

  /**
   * Trimming happens before punctuation is removed, so a title made only
   * of punctuation gives the empty slug: `slugify("!!!") == ""`.
   */
  lemma SlugifyPunctuationOnly(s: string)
    requires forall i :: 0 <= i < |s| ==> IsPunctuation(s[i])
    ensures Slugify(s) == ""
  {
    LowerKeeps(s);
    assert s != [] ==> IsPunctuation(s[0]) && IsPunctuation(s[|s| - 1]);
    TrimKeeps(s);
    KeepSlugCharsDropsAll(s);
    assert KeepSlugChars(Trim(Lower(s))) == [];
    assert HyphenateSpaces([], false) == [];
  }

  /**
   * For the same reason white space before trailing punctuation survives
   * as a hyphen: `slugify("a !") == "a-"`.
   */
  lemma SlugifyTrailingHyphen(word: string, tail: string)
    requires word != [] && IsSlug(word) && word[|word| - 1] != '-'
    requires tail != [] && forall i :: 0 <= i < |tail| ==> IsPunctuation(tail[i])
    ensures Slugify(word + " " + tail) == word + "-"
  {
    TrailingLower(word, tail);
    TrailingTrim(word, tail);
    TrailingKeep(word, tail);
    TrailingHyphenate(word);
    TrailingSqueeze(word);
  }

  lemma TrailingLower(word: string, tail: string)
    requires IsSlug(word)
    requires forall i :: 0 <= i < |tail| ==> IsPunctuation(tail[i])
    ensures Lower(word + " " + tail) == word + " " + tail
  {
    var sp := " ";
    LowerKeeps(word);
    LowerKeeps(tail);
    LowerKeeps(sp);
    calc {
      Lower(word + sp + tail);
      { LowerAppend(word + sp, tail); }
      Lower(word + sp) + Lower(tail);
      { LowerAppend(word, sp); }
      Lower(word) + Lower(sp) + Lower(tail);
    }
  }

  lemma TrailingTrim(word: string, tail: string)
    requires word != [] && IsSlug(word)
    requires tail != [] && forall i :: 0 <= i < |tail| ==> IsPunctuation(tail[i])
    ensures Trim(word + " " + tail) == word + " " + tail
  {
    var s := word + " " + tail;
    assert s[0] == word[0] && IsSlugChar(word[0]);
    assert s[|s| - 1] == tail[|tail| - 1] && IsPunctuation(tail[|tail| - 1]);
    assert !IsSpace(s[0]) && !IsSpace(s[|s| - 1]);
    TrimKeeps(s);
  }

  lemma TrailingKeep(word: string, tail: string)
    requires IsSlug(word)
    requires forall i :: 0 <= i < |tail| ==> IsPunctuation(tail[i])
    ensures KeepSlugChars(word + " " + tail) == word + " "
  {
    KeepSlugCharsAppend(word + " ", tail);
    KeepSlugCharsDropsAll(tail);
    KeepSlugCharsAppend(word, " ");
    KeepSlugCharsKeeps(word);
    assert KeepSlugChars(" ") == " ";
    assert word + " " + [] == word + " ";
  }

  lemma TrailingHyphenate(word: string)
    requires IsSlug(word)
    ensures HyphenateSpaces(word + " ", false) == word + "-"
  {
    assert forall i :: 0 <= i < |word| ==> !IsSpace(word[i]);
    HyphenateSpacesKeeps(word, false);
    HyphenateSpacesAppend(word, " ", false);
  }

  lemma TrailingSqueeze(word: string)
    requires word != [] && IsSlug(word) && word[|word| - 1] != '-'
    ensures SqueezeHyphens(word + "-", false) == word + "-"
  {
    var w := word + "-";
    assert forall i :: 0 <= i < |w| - 1 ==> w[i] == word[i];
    assert NoDoubleHyphen(w);
    SqueezeHyphensKeeps(w, false);
  }

  lemma SlugifySamplePunctuation(s: string)
    requires s == "!!!"
    ensures Slugify(s) == ""
  {
    assert IsPunctuation('!');
    assert forall i :: 0 <= i < |s| ==> s[i] == '!';
    SlugifyPunctuationOnly(s);
  }

  lemma SlugifySampleTrailing(word: string, tail: string)
    requires word == "a" && tail == "!"
    ensures Slugify(word + " " + tail) == "a-"
  {
    SlugifyTrailingHyphen(word, tail);
  }
}
