/** Italian syllabification (metrics/syllabification.py): the string normalisers, the word
    splitter and the first, deterministic phase of syllabification, which inserts the
    syllable separator `#` after a character depending on the one to three characters that
    follow it. The characters `#`, `@` and `§` are the module's internal markers. */
module Syllabification {
  import opened Builtins
  import opened Externals

  // ---------------------------------------------------------------------
  // Character classes.

  /** Python's `\s` on `str`: the characters for which `str.isspace()` holds. */
  const Whitespace: set<char> := {
    '\t', '\n', '\U{B}', '\U{C}', '\r', '\U{1C}', '\U{1D}', '\U{1E}', '\U{1F}', ' ', '\U{85}', '\U{A0}',
    '\U{1680}', '\U{2000}', '\U{2001}', '\U{2002}', '\U{2003}', '\U{2004}', '\U{2005}', '\U{2006}',
    '\U{2007}', '\U{2008}', '\U{2009}', '\U{200A}', '\U{2028}', '\U{2029}', '\U{202F}', '\U{205F}',
    '\U{3000}'}

  /** The punctuation of the word-boundary pattern of `split_words`: , . ; : " “ ” « » ? — ' ` ‘ ’ */
  const BoundaryPunctuation: set<char> := {
    ',', '.', ';', ':', '"', '\U{201C}', '\U{201D}', '\U{AB}', '\U{BB}', '?', '\U{2014}', '\'', '`',
    '\U{2018}', '\U{2019}'}

  /** A character of the class `[,.;:"“”«»?—'`‘’\s]`. */
  predicate IsBoundaryChar(c: char)
  {
    c in BoundaryPunctuation || c in Whitespace
  }

  /** The punctuation `_textip_punctuaction` deletes: , . ; : " “ ” ! ? « » — ' ` ’ */
  const Punctuation: set<char> := {
    ',', '.', ';', ':', '"', '\U{201C}', '\U{201D}', '!', '?', '\U{AB}', '\U{BB}', '\U{2014}', '\'', '`',
    '\U{2019}'}

  /** The vowels `_is_split_acceptable` looks for at both ends of a boundary: AEIOU aeiou àèéìòóù È */
  const SplitVowels: set<char> := {
    'A', 'E', 'I', 'O', 'U', 'a', 'e', 'i', 'o', 'u', '\U{E0}', '\U{E8}', '\U{E9}', '\U{EC}', '\U{F2}',
    '\U{F3}', '\U{F9}', '\U{C8}'}

  /** The apostrophes that make a boundary unbreakable: ' ` ‘ ’ */
  const Apostrophes: set<char> := {'\'', '`', '\U{2018}', '\U{2019}'}

  /** The letters with a diacritic that `_remove_diacritics` replaces: àä èéë ìï òóö ùü */
  const Diacritics: set<char> := {
    '\U{E0}', '\U{E4}', '\U{E8}', '\U{E9}', '\U{EB}', '\U{EC}', '\U{EF}', '\U{F2}', '\U{F3}', '\U{F6}',
    '\U{F9}', '\U{FC}'}

  /** The consonants of the syllabification patterns: bcdfglmnpqrstvz */
  const Consonants: set<char> := {'b', 'c', 'd', 'f', 'g', 'l', 'm', 'n', 'p', 'q', 'r', 's', 't', 'v', 'z'}

  /** The internal markers of the module. */
  const Markers: set<char> := {'#', '@', '\U{A7}'}

  /** The temporary marker `§`. */
  const Keep: char := '\U{A7}'

  /** Case folding as the patterns compiled with `(?i)` see it, for ASCII and Latin-1 letters. */
  function Fold(c: char): (f: char)
    ensures 'A' <= c <= 'Z' ==> f as int == c as int + 32
    ensures c in Markers || c in Whitespace || c in BoundaryPunctuation || c in Punctuation ==> f == c
  {
    if 'A' <= c <= 'Z' || ('\U{C0}' <= c <= '\U{DE}' && c != '\U{D7}') then (c as int + 32) as char else c
  }

  /** A string that holds none of the internal markers, as the module demands of its input. */
  predicate Plain(s: string)
  {
    forall c :: c in Markers ==> c !in s
  }

  // ---------------------------------------------------------------------
  // The normalisers.

  /** `textip_hashes`: deletes every `#` and nothing else. */
  function TextipHashes(text: string): (r: string)
    ensures '#' !in r
    ensures multiset(r) == multiset(text)['#' := 0]
  {
    RemoveKeeps(text, {'#'});
    Remove(text, {'#'})
  }

  /** `_textip_punctuaction`: deletes the punctuation and keeps every other character. */
  function TextipPunctuation(text: string): (r: string)
    ensures forall c :: c in Punctuation ==> c !in r
    ensures forall c :: c !in Punctuation ==> multiset(r)[c] == multiset(text)[c]
  {
    RemoveKeeps(text, Punctuation);
    Remove(text, Punctuation)
  }

  /** `_textip_spaces`: deletes the whitespace and keeps every other character. */
  function TextipSpaces(text: string): (r: string)
    ensures forall c :: c in Whitespace ==> c !in r
    ensures forall c :: c !in Whitespace ==> multiset(r)[c] == multiset(text)[c]
  {
    RemoveKeeps(text, Whitespace);
    Remove(text, Whitespace)
  }

  /** `textip_hashes` works character by character and keeps the order of what it keeps. */
  lemma {:induction false} TextipHashesInOrder(a: string, b: string)
    ensures TextipHashes(a + b) == TextipHashes(a) + TextipHashes(b)
    ensures forall c :: TextipHashes([c]) == if c == '#' then "" else [c]
  {
    RemoveAppend(a, b, {'#'});
    forall c ensures TextipHashes([c]) == if c == '#' then "" else [c] {
      RemoveSingle(c, {'#'});
    }
  }

  /** `_textip_punctuaction` works character by character and keeps the order of what it keeps. */
  lemma {:induction false} TextipPunctuationInOrder(a: string, b: string)
    ensures TextipPunctuation(a + b) == TextipPunctuation(a) + TextipPunctuation(b)
    ensures forall c :: TextipPunctuation([c]) == if c in Punctuation then "" else [c]
  {
    RemoveAppend(a, b, Punctuation);
    forall c ensures TextipPunctuation([c]) == if c in Punctuation then "" else [c] {
      RemoveSingle(c, Punctuation);
    }
  }

  /** `_textip_spaces` works character by character and keeps the order of what it keeps. */
  lemma {:induction false} TextipSpacesInOrder(a: string, b: string)
    ensures TextipSpaces(a + b) == TextipSpaces(a) + TextipSpaces(b)
    ensures forall c :: TextipSpaces([c]) == if c in Whitespace then "" else [c]
  {
    RemoveAppend(a, b, Whitespace);
    forall c ensures TextipSpaces([c]) == if c in Whitespace then "" else [c] {
      RemoveSingle(c, Whitespace);
    }
  }

  /** The base vowel of a letter with a diacritic. */
  function BaseVowel(c: char): char
  {
    if c in {'\U{E0}', '\U{E4}'} then 'a'
    else if c in {'\U{E8}', '\U{E9}', '\U{EB}'} then 'e'
    else if c in {'\U{EC}', '\U{EF}'} then 'i'
    else if c in {'\U{F2}', '\U{F3}', '\U{F6}'} then 'o'
    else if c in {'\U{F9}', '\U{FC}'} then 'u'
    else c
  }

  /** `_remove_diacritics`: the five substitutions, applied character by character. */
  function RemoveDiacritics(text: string): (r: string)
    ensures |r| == |text|
    ensures forall c :: c in Diacritics ==> c !in r
    ensures forall i :: 0 <= i < |text| && text[i] !in Diacritics ==> r[i] == text[i]
    ensures forall i :: 0 <= i < |text| && text[i] in Diacritics ==> r[i] in {'a', 'e', 'i', 'o', 'u'}
    ensures forall i :: 0 <= i < |text| ==> r[i] == BaseVowel(text[i])
  {
    if |text| == 0 then ""
    else
      var r := [BaseVowel(text[0])] + RemoveDiacritics(text[1..]);
      assert forall i :: 1 <= i < |text| ==> r[i] == RemoveDiacritics(text[1..])[i - 1];
      r
  }

  /** Each diacritic class goes to its own vowel: a grave or diaeresis a to a; grave, acute or
      diaeresis e to e; grave or diaeresis i to i; grave, acute or diaeresis o to o; grave or
      diaeresis u to u. */
  lemma {:induction false} BaseVowelClasses(c: char)
    ensures c == '\U{E0}' || c == '\U{E4}' ==> BaseVowel(c) == 'a'
    ensures c == '\U{E8}' || c == '\U{E9}' || c == '\U{EB}' ==> BaseVowel(c) == 'e'
    ensures c == '\U{EC}' || c == '\U{EF}' ==> BaseVowel(c) == 'i'
    ensures c == '\U{F2}' || c == '\U{F3}' || c == '\U{F6}' ==> BaseVowel(c) == 'o'
    ensures c == '\U{F9}' || c == '\U{FC}' ==> BaseVowel(c) == 'u'
    ensures c !in Diacritics ==> BaseVowel(c) == c
  {
  }

  /** `prettify`: lower-cases, then optionally removes diacritics, then deletes punctuation
      and whitespace. */
  function Prettify(env: Env, text: string, keepDiacritics: bool): (r: string)
    ensures forall c :: c in Whitespace || c in Punctuation ==> c !in r
    ensures !keepDiacritics ==> forall c :: c in Diacritics ==> c !in r
  {
    if keepDiacritics then TextipSpaces(TextipPunctuation(env.lower(text)))
    else TextipSpaces(TextipPunctuation(RemoveDiacritics(env.lower(text))))
  }

  lemma {:induction false} TextipHashesIdempotent(text: string)
    ensures TextipHashes(TextipHashes(text)) == TextipHashes(text)
  {
    RemoveNone(TextipHashes(text), {'#'});
  }

  // ---------------------------------------------------------------------
  // split_words.

  /** A match of the word-boundary pattern: `text[start..end]`. */
  datatype Match = Match(start: nat, end: nat)

  /** The end of the run of boundary characters that begins at `p`. */
  function RunEnd(text: string, p: nat): (e: nat)
    requires p <= |text|
    ensures p <= e <= |text|
    ensures forall q :: p <= q < e ==> IsBoundaryChar(text[q])
    ensures e == |text| || !IsBoundaryChar(text[e])
    decreases |text| - p
  {
    if p == |text| || !IsBoundaryChar(text[p]) then p else RunEnd(text, p + 1)
  }

  /** `finditer` of the boundary pattern from `p` on: the maximal runs of boundary characters
      that contain at least one whitespace character, left to right. */
  function BoundaryMatches(text: string, p: nat): (ms: seq<Match>)
    requires p <= |text|
    ensures forall k :: 0 <= k < |ms| ==> p <= ms[k].start < ms[k].end <= |text|
    decreases |text| - p
  {
    if p == |text| then []
    else if !IsBoundaryChar(text[p]) then BoundaryMatches(text, p + 1)
    else
      var e := RunEnd(text, p);
      var rest := BoundaryMatches(text, e);
      if exists q | p <= q < e :: text[q] in Whitespace then [Match(p, e)] + rest else rest
  }

  /** Every match is a maximal run of boundary characters holding a whitespace character,
      and the matches come in order without overlapping. */
  lemma {:induction false} BoundaryMatchesAreRuns(text: string, p: nat)
    requires p <= |text|
    requires p == 0 || p == |text| || !IsBoundaryChar(text[p - 1]) || !IsBoundaryChar(text[p])
    ensures AllMaximalRuns(text, BoundaryMatches(text, p))
    decreases |text| - p
  {
    if p < |text| {
      if !IsBoundaryChar(text[p]) {
        BoundaryMatchesAreRuns(text, p + 1);
      } else {
        var e := RunEnd(text, p);
        BoundaryMatchesAreRuns(text, e);
        var rest := BoundaryMatches(text, e);
        if exists q | p <= q < e :: text[q] in Whitespace {
          assert IsMaximalRun(text, Match(p, e));
          var ms := [Match(p, e)] + rest;
          assert forall k :: 1 <= k < |ms| ==> ms[k] == rest[k - 1];
        }
      }
    }
  }

  /** Every maximal run of boundary characters holding a whitespace character, from `p` on, is
      a match: `finditer` misses none. */
  lemma {:induction false} BoundaryMatchesComplete(text: string, p: nat, m: Match)
    requires p <= |text| && IsMaximalRun(text, m) && p <= m.start
    ensures m in BoundaryMatches(text, p)
    decreases |text| - p
  {
    if !IsBoundaryChar(text[p]) {
      BoundaryMatchesComplete(text, p + 1, m);
    } else {
      var e := RunEnd(text, p);
      if m.start == p {
        RunEndOfRun(text, m, p);
        assert exists q | p <= q < e :: text[q] in Whitespace;
      } else {
        assert !IsBoundaryChar(text[m.start - 1]);
        assert e <= m.start;
        BoundaryMatchesComplete(text, e, m);
      }
    }
  }

  /** Inside a maximal run, the run read from any position ends where the run does. */
  lemma {:induction false} RunEndOfRun(text: string, m: Match, q: nat)
    requires IsMaximalRun(text, m) && m.start <= q <= m.end
    ensures RunEnd(text, q) == m.end
    decreases m.end - q
  {
    if q < m.end {
      RunEndOfRun(text, m, q + 1);
    }
  }

  /** The matches come left to right, each starting on a boundary character. */
  lemma {:induction false} BoundaryMatchesOrdered(text: string, p: nat)
    requires p <= |text|
    ensures Ordered(BoundaryMatches(text, p))
    ensures StartOnBoundary(text, BoundaryMatches(text, p))
    decreases |text| - p
  {
    if p < |text| {
      if !IsBoundaryChar(text[p]) {
        BoundaryMatchesOrdered(text, p + 1);
      } else {
        var e := RunEnd(text, p);
        BoundaryMatchesOrdered(text, e);
        var rest := BoundaryMatches(text, e);
        if exists q | p <= q < e :: text[q] in Whitespace {
          RunsStartAfter(text, e, rest);
          ConsOrdered(text, Match(p, e), rest);
        }
      }
    }
  }

  /** Every match of `ms` starts on a boundary character. */
  predicate StartOnBoundary(text: string, ms: seq<Match>)
  {
    forall k :: 0 <= k < |ms| ==> ms[k].start < |text| && IsBoundaryChar(text[ms[k].start])
  }

  /** The runs found from a non-boundary position `e` on start after it. */
  lemma {:induction false} RunsStartAfter(text: string, e: nat, rest: seq<Match>)
    requires e == |text| || (e < |text| && !IsBoundaryChar(text[e]))
    requires StartOnBoundary(text, rest)
    requires forall l :: 0 <= l < |rest| ==> e <= rest[l].start
    ensures forall l :: 0 <= l < |rest| ==> e < rest[l].start
  {
  }

  /** A run before all the runs of an ordered list keeps it ordered. */
  lemma {:induction false} ConsOrdered(text: string, m: Match, rest: seq<Match>)
    requires m.start < m.end <= |text| && IsBoundaryChar(text[m.start])
    requires StartOnBoundary(text, rest) && Ordered(rest)
    requires forall l :: 0 <= l < |rest| ==> m.end < rest[l].start
    ensures StartOnBoundary(text, [m] + rest) && Ordered([m] + rest)
  {
    var ms := [m] + rest;
    assert forall k :: 1 <= k < |ms| ==> ms[k] == rest[k - 1];
  }

  /** Every match of `ms` is a maximal run. */
  predicate AllMaximalRuns(text: string, ms: seq<Match>)
  {
    forall k :: 0 <= k < |ms| ==> IsMaximalRun(text, ms[k])
  }

  /** The matches of `ms` come left to right without touching. */
  predicate Ordered(ms: seq<Match>)
  {
    forall k, l :: 0 <= k < l < |ms| ==> ms[k].end < ms[l].start
  }

  /** `m` is a maximal run of boundary characters holding some whitespace: exactly what the
      pattern `[…\s]*\s+[…\s]*` matches when searched from the end of the previous match. */
  predicate IsMaximalRun(text: string, m: Match)
  {
    m.start < m.end <= |text| &&
    (forall q :: m.start <= q < m.end ==> IsBoundaryChar(text[q])) &&
    (exists q :: m.start <= q < m.end && text[q] in Whitespace) &&
    (m.start == 0 || !IsBoundaryChar(text[m.start - 1])) &&
    (m.end == |text| || !IsBoundaryChar(text[m.end]))
  }

  /** The start of the text `_is_split_acceptable` inspects: one character before the match. */
  function Begin(m: Match): nat
  {
    if m.start > 1 then m.start - 1 else 0
  }

  /** `text[begin:end]` as `split_words` passes it to `_is_split_acceptable`. */
  function Boundary(text: string, m: Match): (b: string)
    requires m.start < m.end <= |text|
    ensures |b| > 0
  {
    text[Begin(m)..if m.end < |text| then m.end + 1 else |text|]
  }

  /** `.*\n+.*` matches from the start: the text has a newline. */
  predicate HasNewline(t: string)
    decreases |t|
  {
    |t| > 0 && (t[0] == '\n' || HasNewline(t[1..]))
  }

  /** `.*['`‘’].*` matches from the start: an apostrophe occurs before the first newline
      (`.` does not match a newline). */
  predicate ApostropheBeforeNewline(t: string)
    decreases |t|
  {
    |t| > 0 && t[0] != '\n' && (t[0] in Apostrophes || ApostropheBeforeNewline(t[1..]))
  }

  /** `_is_split_acceptable`: a boundary is kept unless it is an elision (an apostrophe next to
      a vowel) on a single line, or, with `synalepha`, it lies between two vowels. */
  function IsSplitAcceptable(t: string, synalepha: bool): bool
    requires |t| > 0
  {
    var prev, succ := t[0], t[|t| - 1];
    var out := HasNewline(t) || !(ApostropheBeforeNewline(t) && (prev in SplitVowels || succ in SplitVowels));
    if synalepha then out && !(prev in SplitVowels && succ in SplitVowels) else out
  }

  /** Synalepha only ever refuses more boundaries: it refuses every boundary between two
      vowels, and accepts none that would be refused without it; without synalepha a boundary
      spanning lines is always kept. */
  lemma {:induction false} SplitAcceptableSynalepha(t: string)
    requires |t| > 0
    ensures t[0] in SplitVowels && t[|t| - 1] in SplitVowels ==> !IsSplitAcceptable(t, true)
    ensures IsSplitAcceptable(t, true) ==> IsSplitAcceptable(t, false)
    ensures HasNewline(t) ==> IsSplitAcceptable(t, false)
  {
  }

  /** The newline pattern matches exactly the texts holding a newline. */
  lemma {:induction false} HasNewlineIff(t: string)
    ensures HasNewline(t) <==> '\n' in t
    decreases |t|
  {
    if |t| > 0 {
      HasNewlineIff(t[1..]);
      assert t == [t[0]] + t[1..];
    }
  }

  /** The apostrophe pattern matches exactly when an apostrophe comes before every newline. */
  lemma {:induction false} ApostropheBeforeNewlineIff(t: string)
    ensures ApostropheBeforeNewline(t) <==>
      exists i :: 0 <= i < |t| && t[i] in Apostrophes && '\n' !in t[..i]
    decreases |t|
  {
    if |t| > 0 {
      ApostropheBeforeNewlineIff(t[1..]);
      if ApostropheBeforeNewline(t) {
        if t[0] in Apostrophes {
          assert t[..0] == [];
        } else {
          var i :| 0 <= i < |t| - 1 && t[1..][i] in Apostrophes && '\n' !in t[1..][..i];
          assert t[..i + 1] == [t[0]] + t[1..][..i];
        }
      }
    }
  }

  /** Without an apostrophe a boundary is refused only for synalepha between two vowels. */
  lemma {:induction false} SplitAcceptableWithoutApostrophe(t: string, synalepha: bool)
    requires |t| > 0
    requires forall i :: 0 <= i < |t| ==> t[i] !in Apostrophes
    ensures IsSplitAcceptable(t, synalepha) <==> !(synalepha && t[0] in SplitVowels && t[|t| - 1] in SplitVowels)
  {
    ApostropheBeforeNewlineIff(t);
  }

  /** Every match of `ms` is a non-empty span of `text`. */
  predicate InText(text: string, ms: seq<Match>)
  {
    forall j :: 0 <= j < |ms| ==> ms[j].start < ms[j].end <= |text|
  }

  /** One iteration of the loop of `split_words`: with `begin` one before the match (or 0)
      and `end` one after it, `begin + 1` is appended when `text[begin:end]` is an acceptable
      split, and nothing otherwise. */
  function CutAt(text: string, m: Match, synalepha: bool): seq<int>
    requires m.start < m.end <= |text|
  {
    if IsSplitAcceptable(Boundary(text, m), synalepha) then [Begin(m) + 1] else []
  }

  /** The indexes the loop of `split_words` appends for the first `k` matches of `ms`, in order. */
  function Cuts(text: string, ms: seq<Match>, k: nat, synalepha: bool): (cs: seq<int>)
    requires k <= |ms|
    requires InText(text, ms)
    ensures |cs| <= k
    decreases k
  {
    if k == 0 then []
    else
      var m := ms[k - 1];
      Cuts(text, ms, k - 1, synalepha) + CutAt(text, m, synalepha)
  }

  /** `[text[i:j] for i, j in zip(indexes, indexes[1:] + [None])]`. */
  function Slices(text: string, indexes: seq<int>): (r: seq<string>)
    ensures |r| == |indexes|
    decreases |indexes|
  {
    if |indexes| == 0 then []
    else if |indexes| == 1 then [Slice(text, indexes[0], |text|)]
    else [Slice(text, indexes[0], indexes[1])] + Slices(text, indexes[1..])
  }

  /** `split_words(text, synalepha)`: the pieces of `text` cut at the accepted boundaries;
      each piece after the first starts with the boundary's separator characters. */
  function Words(text: string, synalepha: bool): seq<string>
  {
    var ms := BoundaryMatches(text, 0);
    Slices(text, [0] + Cuts(text, ms, |ms|, synalepha))
  }

  /** The loop of `split_words`: the start of every accepted boundary, after a leading 0. */
  method CollectCuts(text: string, matches: seq<Match>, synalepha: bool) returns (indexes: seq<int>)
    requires InText(text, matches)
    ensures indexes == [0] + Cuts(text, matches, |matches|, synalepha)
  {
    indexes := [0];
    for k := 0 to |matches|
      invariant indexes == [0] + Cuts(text, matches, k, synalepha)
    {
      indexes := indexes + CutAt(text, matches[k], synalepha);
    }
  }

  /** `split_words`. */
  method SplitWords(text: string, synalepha: bool) returns (words: seq<string>)
    ensures words == Words(text, synalepha)
  {
    var matches := BoundaryMatches(text, 0);
    var indexes := CollectCuts(text, matches, synalepha);
    words := Slices(text, indexes);
  }

  // ---------------------------------------------------------------------
  // Properties of split_words.

  /** The cut of a match: one past `begin`. */
  function CutOf(m: Match): int
  {
    Begin(m) + 1
  }

  /** The cuts are strictly increasing positions in `1..|text|`, none after the cut of the
      last match considered. */
  lemma {:induction false} CutsIncreasing(text: string, ms: seq<Match>, k: nat, synalepha: bool)
    requires k <= |ms| && InText(text, ms) && Ordered(ms)
    ensures forall i, j :: 0 <= i < j < |Cuts(text, ms, k, synalepha)| ==>
      Cuts(text, ms, k, synalepha)[i] < Cuts(text, ms, k, synalepha)[j]
    ensures forall i :: 0 <= i < |Cuts(text, ms, k, synalepha)| ==>
      1 <= Cuts(text, ms, k, synalepha)[i] <= |text| && Cuts(text, ms, k, synalepha)[i] <= CutOf(ms[k - 1])
    decreases k
  {
    if k > 0 {
      CutsIncreasing(text, ms, k - 1, synalepha);
      var prev := Cuts(text, ms, k - 1, synalepha);
      var m := ms[k - 1];
      assert m.start < m.end <= |text|;
      if k > 1 {
        assert ms[k - 2].start < ms[k - 2].end < m.start;
        assert forall i :: 0 <= i < |prev| ==> prev[i] < CutOf(m);
      }
      var cs := Cuts(text, ms, k, synalepha);
      assert cs == prev + CutAt(text, m, synalepha);
      assert forall i :: 0 <= i < |prev| ==> cs[i] == prev[i];
    }
  }

  /** Concatenating the slices between sorted positions gives back the text from the first. */
  lemma {:induction false} ConcatSlices(text: string, indexes: seq<int>)
    requires |indexes| >= 1
    requires forall i :: 0 <= i < |indexes| ==> 0 <= indexes[i] <= |text|
    requires forall i, j :: 0 <= i < j < |indexes| ==> indexes[i] <= indexes[j]
    ensures Concat(Slices(text, indexes)) == text[indexes[0]..]
    decreases |indexes|
  {
    if |indexes| == 1 {
      ConcatCons(text[indexes[0]..], []);
    } else {
      ConcatSlices(text, indexes[1..]);
      var i, j := indexes[0], indexes[1];
      ConcatCons(text[i..j], Slices(text, indexes[1..]));
      assert text[i..j] + text[j..] == text[i..];
    }
  }

  /** The last slice runs from the last position to the end of the text. */
  lemma {:induction false} SlicesLast(text: string, indexes: seq<int>)
    requires |indexes| >= 1
    ensures Slices(text, indexes)[|indexes| - 1] == Slice(text, indexes[|indexes| - 1], |text|)
    decreases |indexes|
  {
    if |indexes| > 1 {
      SlicesLast(text, indexes[1..]);
    }
  }

  /** The last word runs from the last accepted cut (the start, without one) to the end. */
  lemma {:induction false} WordsLast(text: string, synalepha: bool)
    ensures |Words(text, synalepha)| >= 1
    ensures var ms := BoundaryMatches(text, 0); var cs := Cuts(text, ms, |ms|, synalepha);
      var lo := if cs == [] then 0 else cs[|cs| - 1];
      0 <= lo <= |text| && Words(text, synalepha)[|Words(text, synalepha)| - 1] == text[lo..]
  {
    var ms := BoundaryMatches(text, 0);
    BoundaryMatchesOrdered(text, 0);
    var cs := Cuts(text, ms, |ms|, synalepha);
    CutsIncreasing(text, ms, |ms|, synalepha);
    LastSlice(text, cs);
  }

  /** The last slice after a leading 0 and the cuts `cs` is the suffix from the last cut. */
  lemma {:induction false} LastSlice(text: string, cs: seq<int>)
    requires forall i :: 0 <= i < |cs| ==> 0 <= cs[i] <= |text|
    ensures var lo := if cs == [] then 0 else cs[|cs| - 1];
      0 <= lo <= |text| && Slices(text, [0] + cs)[|cs|] == text[lo..]
  {
    var indexes := [0] + cs;
    assert indexes[|indexes| - 1] == if cs == [] then 0 else cs[|cs| - 1];
    SlicesLast(text, indexes);
  }

  /** `split_words` loses and adds nothing: its words put back together give the text, and
      there is always at least one word (the whole text when no boundary is found). */
  lemma {:induction false} WordsCover(text: string, synalepha: bool)
    ensures Concat(Words(text, synalepha)) == text
    ensures |Words(text, synalepha)| >= 1
    ensures BoundaryMatches(text, 0) == [] ==> Words(text, synalepha) == [text]
  {
    var ms := BoundaryMatches(text, 0);
    BoundaryMatchesOrdered(text, 0);
    var cs := Cuts(text, ms, |ms|, synalepha);
    CutsIncreasing(text, ms, |ms|, synalepha);
    var indexes := [0] + cs;
    assert forall i :: 1 <= i < |indexes| ==> indexes[i] == cs[i - 1];
    ConcatSlices(text, indexes);
    WordsUncut(text, synalepha);
  }

  /** When every boundary is rejected (no cut survives), `split_words` returns the whole
      text as its only word. */
  lemma {:induction false} WordsUncut(text: string, synalepha: bool)
    ensures var ms := BoundaryMatches(text, 0);
      Cuts(text, ms, |ms|, synalepha) == [] ==> Words(text, synalepha) == [text]
  {
    var ms := BoundaryMatches(text, 0);
    BoundaryMatchesOrdered(text, 0);
    if Cuts(text, ms, |ms|, synalepha) == [] {
      assert [0] + Cuts(text, ms, |ms|, synalepha) == [0];
      assert text[0..|text|] == text;
    }
  }

  /** Synalepha only removes cuts: every cut made with it is made without it. */
  lemma {:induction false} SynalephaCutsFewer(text: string, ms: seq<Match>, k: nat)
    requires k <= |ms| && InText(text, ms)
    ensures forall c :: c in Cuts(text, ms, k, true) ==> c in Cuts(text, ms, k, false)
    ensures |Cuts(text, ms, k, true)| <= |Cuts(text, ms, k, false)|
    decreases k
  {
    if k > 0 {
      SynalephaCutsFewer(text, ms, k - 1);
      var m := ms[k - 1];
      CutAtSynalepha(text, m);
      var with, without := Cuts(text, ms, k - 1, true), Cuts(text, ms, k - 1, false);
      assert Cuts(text, ms, k, true) == with + CutAt(text, m, true);
      assert Cuts(text, ms, k, false) == without + CutAt(text, m, false);
    }
  }

  /** A boundary kept with synalepha is kept without it. */
  lemma {:induction false} CutAtSynalepha(text: string, m: Match)
    requires m.start < m.end <= |text|
    ensures CutAt(text, m, true) == [] || CutAt(text, m, true) == CutAt(text, m, false)
  {
    SplitAcceptableSynalepha(Boundary(text, m));
  }

  /** With synalepha `split_words` makes at most as many words, and every word boundary it
      keeps is one it keeps without synalepha. */
  lemma {:induction false} SynalephaWordsFewer(text: string)
    ensures |Words(text, true)| <= |Words(text, false)|
    ensures var ms := BoundaryMatches(text, 0);
      forall c :: c in Cuts(text, ms, |ms|, true) ==> c in Cuts(text, ms, |ms|, false)
  {
    var ms := BoundaryMatches(text, 0);
    SynalephaCutsFewer(text, ms, |ms|);
  }

  // ---------------------------------------------------------------------
  // The first phase of syllabification. Every step is a `re.sub` whose pattern matches one
  // character (three for two hiatus alternatives) when a lookahead holds, and puts `@` after
  // the match; `m.join(out.split("@"))` then turns each `@` into the marker `m`.

  /** The character at `i` as a pattern compiled with `(?i)` sees it; past the end, a
      character that no pattern accepts (a lookahead cannot match there). */
  function At(s: string, i: nat): char
  {
    if i < |s| then Fold(s[i]) else '\0'
  }

  /** `re.sub(p, r"\1@", s)` with `@` written `m`, for a pattern `p` that matches the first
      character of the text that satisfies `at`: `m` follows every such character. */
  function MarkAfter(s: string, at: string -> bool, m: char): string
    decreases |s|
  {
    if |s| == 0 then "" else [s[0]] + (if at(s) then [m] else []) + MarkAfter(s[1..], at, m)
  }

  /** The first character, the marker if the step matches there, then the rest marked. */
  lemma {:induction false} MarkAfterCons(s: string, at: string -> bool, m: char)
    requires |s| > 0
    ensures MarkAfter(s, at, m) == [s[0]] + (if at(s) then [m] else []) + MarkAfter(s[1..], at, m)
  {
  }

  /** `m.join(p.sub(r"\1@", s).split("@"))`: the idiom every step of the first phase uses. */
  function MarkWith(s: string, at: string -> bool, m: char): string
  {
    Join(Split(MarkAfter(s, at, '@'), '@'), m)
  }

  /** `(?i)s(?=[bcdfghlmnpqrtvz])`: an impure s. */
  predicate Impure(s: string)
  {
    At(s, 0) == 's' && At(s, 1) in {'b', 'c', 'd', 'f', 'g', 'h', 'l', 'm', 'n', 'p', 'q', 'r', 't', 'v', 'z'}
  }

  /** `(?i)[bcdgpt](?=[lr])`: a mute consonant followed by a liquid. */
  predicate MuteLiquid(s: string)
  {
    At(s, 0) in {'b', 'c', 'd', 'g', 'p', 't'} && At(s, 1) in {'l', 'r'}
  }

  /** `(?i)(g(?=li)|g(?=n[aeiou])|s(?=c[ei])|[cg](?=h[eèéiì])|[cg](?=i[aou]))`: the first
      letter of a digram. */
  predicate Digram(s: string)
  {
    (At(s, 0) == 'g' && At(s, 1) == 'l' && At(s, 2) == 'i') ||
    (At(s, 0) == 'g' && At(s, 1) == 'n' && At(s, 2) in {'a', 'e', 'i', 'o', 'u'}) ||
    (At(s, 0) == 's' && At(s, 1) == 'c' && At(s, 2) in {'e', 'i'}) ||
    (At(s, 0) in {'c', 'g'} && At(s, 1) == 'h' && At(s, 2) in {'e', '\U{E8}', '\U{E9}', 'i', '\U{EC}'}) ||
    (At(s, 0) in {'c', 'g'} && At(s, 1) == 'i' && At(s, 2) in {'a', 'o', 'u'})
  }

  /** `(?i)(g(?=li[aou])|s(?=ci[aou]))`: the first letter of a trigram. */
  predicate Trigram(s: string)
  {
    (At(s, 0) == 'g' && At(s, 1) == 'l' && At(s, 2) == 'i' && At(s, 3) in {'a', 'o', 'u'}) ||
    (At(s, 0) == 's' && At(s, 1) == 'c' && At(s, 2) == 'i' && At(s, 3) in {'a', 'o', 'u'})
  }

  /** `(?i)[bcdfglmnpqrstvz](?=[bcdfglmnpqrstvz]+)`: a consonant followed by a consonant. */
  predicate MultiCons(s: string)
  {
    At(s, 0) in Consonants && At(s, 1) in Consonants
  }

  /** `(?i)(([bcdfglmnpqrstvz])(?=\2)|c(?=q))`: a consonant followed by the same one (the
      back-reference ignores case too), or a c followed by a q. */
  predicate DoubleCons(s: string)
  {
    (At(s, 0) in Consonants && At(s, 1) == At(s, 0)) || (At(s, 0) == 'c' && At(s, 1) == 'q')
  }

  /** `(?i)([äëïöüËÏ](?=[aeiou])|[aeiou](?=[äëïöüËÏ]))`: a vowel with a dieresis next to a plain one. */
  predicate Dieresis(s: string)
  {
    (At(s, 0) in DieresisVowels && At(s, 1) in {'a', 'e', 'i', 'o', 'u'}) ||
    (At(s, 0) in {'a', 'e', 'i', 'o', 'u'} && At(s, 1) in DieresisVowels)
  }

  /** ä ë ï ö ü, as `[äëïöüËÏ]` matches them ignoring case. */
  const DieresisVowels: set<char> := {'\U{E4}', '\U{EB}', '\U{EF}', '\U{F6}', '\U{FC}'}

  /** The characters the hiatus pattern accepts on both sides of `[aeoàèòóé](?=[aeoàèòóé])`. */
  const HiatusVowels: set<char> := {'a', 'e', 'o', '\U{E0}', '\U{E8}', '\U{F2}', '\U{F3}', '\U{E9}'}

  /** The steps of `_split_multiple_cons` protect a position once one of its first four
      patterns has matched there. */
  predicate Protected2(s: string) { Impure(s) || MuteLiquid(s) }
  predicate Protected3(s: string) { Protected2(s) || Digram(s) }
  predicate Protected4(s: string) { Protected3(s) || Trigram(s) }

  /** Where `_split_multiple_cons` splits: a consonant followed by a consonant, unless the
      pair is an impure s, a mute and a liquid, or starts a digram or trigram. */
  predicate MultiConsSplit(s: string)
  {
    MultiCons(s) && !Impure(s) && !MuteLiquid(s) && !Digram(s) && !Trigram(s)
  }

  /** `_split_multiple_cons`: protect the four kinds of inseparable pairs with `§`, split
      every other pair of consonants with `#`, then delete the `§`. */
  function SplitMultipleCons(text: string): string
  {
    var out1 := MarkWith(text, Impure, Keep);
    var out2 := MarkWith(out1, MuteLiquid, Keep);
    var out3 := MarkWith(out2, Digram, Keep);
    var out4 := MarkWith(out3, Trigram, Keep);
    var out5 := MarkWith(out4, MultiCons, '#');
    Concat(Split(out5, Keep))
  }

  /** `_split_double_cons`. */
  function SplitDoubleCons(text: string): string
  {
    MarkWith(text, DoubleCons, '#')
  }

  /** `_split_dieresis`. */
  function SplitDieresis(text: string): string
  {
    MarkWith(text, Dieresis, '#')
  }

  /** The length of the match of the hiatus pattern
      `(?i)([aeoàèòóé](?=[aeoàèòóé])|[rb]i(?=[aeou])|tri(?=[aeou])|[ìù](?=[aeiou]))`
      at the start of `s`, 0 when it does not match there; the alternatives are tried in order. */
  function HiatusMatch(s: string): (n: nat)
    ensures n <= |s|
    ensures n > 0 ==> n == 1 || n == 2 || n == 3
  {
    if At(s, 0) in HiatusVowels && At(s, 1) in HiatusVowels then 1
    else if At(s, 0) in {'r', 'b'} && At(s, 1) == 'i' && At(s, 2) in {'a', 'e', 'o', 'u'} then 2
    else if At(s, 0) == 't' && At(s, 1) == 'r' && At(s, 2) == 'i' && At(s, 3) in {'a', 'e', 'o', 'u'} then 3
    else if At(s, 0) in {'\U{EC}', '\U{F9}'} && At(s, 1) in {'a', 'e', 'i', 'o', 'u'} then 1
    else 0
  }

  /** `hiatus.sub(r"\1@", s)`: the scan resumes after each match, so a match of two or three
      characters hides the positions inside it. */
  function HiatusMark(s: string): string
    decreases |s|
  {
    if |s| == 0 then ""
    else
      var n := HiatusMatch(s);
      if n > 0 then s[..n] + "@" + HiatusMark(s[n..]) else [s[0]] + HiatusMark(s[1..])
  }

  /** `_split_hiatus`. */
  function SplitHiatus(text: string): string
  {
    Join(Split(HiatusMark(text), '@'), '#')
  }

  /** `_perform_initial_splits`. */
  function InitialSplits(text: string): string
  {
    SplitHiatus(SplitDieresis(SplitDoubleCons(SplitMultipleCons(text))))
  }

  /** `syllabify_word`: the second phase is the collaborator `finalSplits`. */
  function SyllabifyWord(env: Env, text: string): string
  {
    env.finalSplits(InitialSplits(text))
  }

  /** `syllabify_block`: the words' syllables joined with `#`. */
  function SyllabifyBlock(env: Env, text: string, synalepha: bool): string
  {
    var words := Words(text, synalepha);
    Join(seq(|words|, i requires 0 <= i < |words| => SyllabifyWord(env, words[i])), '#')
  }

  // ---------------------------------------------------------------------
  // What the marking steps do.

  /** Deleting the marker undoes `MarkAfter`. */
  lemma {:induction false} MarkAfterErase(s: string, at: string -> bool, m: char)
    ensures Remove(MarkAfter(s, at, m), {m}) == Remove(s, {m})
    decreases |s|
  {
    if |s| > 0 {
      var mark := if at(s) then [m] else [];
      RemoveAppend([s[0]] + mark, MarkAfter(s[1..], at, m), {m});
      RemoveAppend([s[0]], mark, {m});
      MarkAfterErase(s[1..], at, m);
      assert Remove(mark, {m}) == "";
      RemoveAppend([s[0]], s[1..], {m});
      assert [s[0]] + s[1..] == s;
    }
  }

  /** `MarkAfter` adds no character but its marker. */
  lemma {:induction false} MarkAfterKeepsOut(s: string, at: string -> bool, m: char, c: char)
    requires c !in s && c != m
    ensures c !in MarkAfter(s, at, m)
    decreases |s|
  {
    if |s| > 0 {
      MarkAfterKeepsOut(s[1..], at, m, c);
    }
  }

  /** On text without `@`, the idiom `m.join(p.sub(r"\1@", s).split("@"))` is `MarkAfter`
      with marker `m`. */
  lemma {:induction false} MarkWithIsMarkAfter(s: string, at: string -> bool, m: char)
    requires '@' !in s
    ensures MarkWith(s, at, m) == MarkAfter(s, at, m)
  {
    JoinSplitReplaces(MarkAfter(s, at, '@'), '@', m);
    ReplaceMarks(s, at, m);
  }

  lemma {:induction false} ReplaceMarks(s: string, at: string -> bool, m: char)
    requires '@' !in s
    ensures Replace(MarkAfter(s, at, '@'), '@', m) == MarkAfter(s, at, m)
    decreases |s|
  {
    if |s| > 0 {
      ReplaceMarks(s[1..], at, m);
      assert s[0] != '@' by { assert s[0] in s; }
      MarkAfterCons(s, at, '@');
      MarkAfterCons(s, at, m);
      ReplaceGlue(s[0], at(s), MarkAfter(s[1..], at, '@'), '@', m);
    }
  }

  /** A second protecting step over text the first one has marked with `§` marks exactly the
      characters either step accepts on the original text, provided the second step's pattern
      sees a `§` where the first one matched and otherwise the original text. */
  lemma {:induction false} MarkOverMarks(t: string, p: string -> bool, q: string -> bool, r: string -> bool)
    requires forall s {:trigger q(MarkAfter(s, p, Keep))} :: |s| > 0 ==> q(MarkAfter(s, p, Keep)) == (!p(s) && q(s))
    requires forall s {:trigger q([Keep] + s)} :: !q([Keep] + s)
    requires forall s {:trigger r(s)} :: r(s) == (p(s) || q(s))
    ensures MarkAfter(MarkAfter(t, p, Keep), q, Keep) == MarkAfter(t, r, Keep)
    decreases |t|
  {
    if |t| > 0 {
      MarkOverMarks(t[1..], p, q, r);
      assert q(MarkAfter(t, p, Keep)) == (!p(t) && q(t)) && r(t) == (p(t) || q(t));
      if p(t) {
        assert !q([Keep] + MarkAfter(t[1..], p, Keep));
        ProtectedMarks(t, p, q, Keep);
      } else {
        OpenMarks(t, p, q, Keep);
      }
      MarkAfterCons(t, r, Keep);
    }
  }

  /** The last step of `_split_multiple_cons` marks with `#` where its pattern still matches,
      and deleting the `§` leaves `#` exactly where the protecting steps did not match. */
  lemma {:induction false} FinalMarks(t: string, p: string -> bool, q: string -> bool, r: string -> bool)
    requires Keep !in t
    requires forall s {:trigger q(MarkAfter(s, p, Keep))} :: |s| > 0 ==> q(MarkAfter(s, p, Keep)) == (!p(s) && q(s))
    requires forall s {:trigger q([Keep] + s)} :: !q([Keep] + s)
    requires forall s {:trigger r(s)} :: r(s) == (!p(s) && q(s))
    ensures Remove(MarkAfter(MarkAfter(t, p, Keep), q, '#'), {Keep}) == MarkAfter(t, r, '#')
    decreases |t|
  {
    if |t| > 0 {
      FinalMarks(t[1..], p, q, r);
      assert q(MarkAfter(t, p, Keep)) == (!p(t) && q(t)) && r(t) == (!p(t) && q(t));
      if p(t) {
        assert !q([Keep] + MarkAfter(t[1..], p, Keep));
        FinalMarksProtected(t, p, q, r);
      } else {
        FinalMarksOpen(t, p, q, r);
      }
    }
  }

  /** The step of `FinalMarks` where the protecting steps matched: no `#` there. */
  lemma {:induction false} FinalMarksProtected(t: string, p: string -> bool, q: string -> bool, r: string -> bool)
    requires |t| > 0 && Keep !in t && !q(MarkAfter(t, p, Keep)) && !r(t) && p(t)
    requires !q([Keep] + MarkAfter(t[1..], p, Keep))
    requires Remove(MarkAfter(MarkAfter(t[1..], p, Keep), q, '#'), {Keep}) == MarkAfter(t[1..], r, '#')
    ensures Remove(MarkAfter(MarkAfter(t, p, Keep), q, '#'), {Keep}) == MarkAfter(t, r, '#')
  {
    var tail := MarkAfter(MarkAfter(t[1..], p, Keep), q, '#');
    ProtectedMarks(t, p, q, '#');
    RemoveSkipSecond(t[0], Keep, tail, {Keep});
    MarkAfterCons(t, r, '#');
  }

  /** Where a protecting step matched, a later step that does not match at the `§` it left
      adds nothing there. */
  lemma {:induction false} ProtectedMarks(t: string, p: string -> bool, q: string -> bool, m: char)
    requires |t| > 0 && !q(MarkAfter(t, p, Keep)) && p(t)
    requires !q([Keep] + MarkAfter(t[1..], p, Keep))
    ensures MarkAfter(MarkAfter(t, p, Keep), q, m) == [t[0]] + ([Keep] + MarkAfter(MarkAfter(t[1..], p, Keep), q, m))
  {
    var rest := MarkAfter(t[1..], p, Keep);
    var u := MarkAfter(t, p, Keep);
    MarkAfterCons(t, p, Keep);
    assert u == [t[0]] + [Keep] + rest;
    MarkAfterCons(u, q, m);
    assert u[1..] == [Keep] + rest;
    MarkAfterCons([Keep] + rest, q, m);
    assert ([Keep] + rest)[1..] == rest;
  }

  /** Where a protecting step did not match, a later step marks where it matches on the
      original text. */
  lemma {:induction false} OpenMarks(t: string, p: string -> bool, q: string -> bool, m: char)
    requires |t| > 0 && !p(t) && q(MarkAfter(t, p, Keep)) == q(t)
    ensures MarkAfter(MarkAfter(t, p, Keep), q, m) ==
      [t[0]] + (if q(t) then [m] else []) + MarkAfter(MarkAfter(t[1..], p, Keep), q, m)
  {
    var rest := MarkAfter(t[1..], p, Keep);
    var u := MarkAfter(t, p, Keep);
    MarkAfterCons(t, p, Keep);
    assert u == [t[0]] + rest;
    MarkAfterCons(u, q, m);
    assert u[1..] == rest;
  }

  /** The step of `FinalMarks` where the protecting steps did not match: `#` where the pattern
      matches. */
  lemma {:induction false} FinalMarksOpen(t: string, p: string -> bool, q: string -> bool, r: string -> bool)
    requires |t| > 0 && Keep !in t && !p(t) && q(MarkAfter(t, p, Keep)) == q(t) && r(t) == q(t)
    requires Remove(MarkAfter(MarkAfter(t[1..], p, Keep), q, '#'), {Keep}) == MarkAfter(t[1..], r, '#')
    ensures Remove(MarkAfter(MarkAfter(t, p, Keep), q, '#'), {Keep}) == MarkAfter(t, r, '#')
  {
    var tail := MarkAfter(MarkAfter(t[1..], p, Keep), q, '#');
    OpenMarks(t, p, q, '#');
    var mark := if q(t) then "#" else "";
    RemoveAppend([t[0]] + mark, tail, {Keep});
    RemoveAppend([t[0]], mark, {Keep});
    MarkAfterCons(t, r, '#');
  }

  /** The protecting marker is no letter and no consonant. */
  lemma {:induction false} KeepIsNoLetter()
    ensures Fold(Keep) == Keep && Keep !in Consonants
  {
  }

  /** What a pattern sees at the start of marked text: the first character, then the marker
      if the step matched there, and otherwise the text again. */
  lemma {:induction false} MarkedWindow(s: string, p: string -> bool, m: char)
    requires |s| > 0
    ensures At(MarkAfter(s, p, m), 0) == Fold(s[0])
    ensures p(s) ==> At(MarkAfter(s, p, m), 1) == Fold(m)
    ensures !p(s) ==> At(MarkAfter(s, p, m), 1) == At(s, 1)
  {
    if |s| > 1 {
      assert s[1..][0] == s[1];
    }
  }

  /** One character further: the marker if the step matched at the second character. */
  lemma {:induction false} MarkedWindowThird(s: string, p: string -> bool, m: char)
    requires |s| > 1 && !p(s)
    ensures At(MarkAfter(s, p, m), 2) == if p(s[1..]) then Fold(m) else At(s, 2)
  {
    MarkAfterCons(s, p, m);
    MarkedWindow(s[1..], p, m);
    assert s[1..][0] == s[1];
    if |s| > 2 {
      assert s[1..][1..][0] == s[2];
    }
  }

  /** Where an impure s was protected, the mute-and-liquid pattern cannot match. */
  lemma {:induction false} StepMuteLiquid(s: string)
    requires |s| > 0
    ensures MuteLiquid(MarkAfter(s, Impure, Keep)) == (!Impure(s) && MuteLiquid(s))
  {
    MarkedWindow(s, Impure, Keep);
  }

  /** A digram cannot be followed by a protected pair, so the digram pattern sees the text
      unchanged wherever the first two steps did not match. */
  lemma {:induction false} StepDigram(s: string)
    requires |s| > 0
    ensures Digram(MarkAfter(s, Protected2, Keep)) == (!Protected2(s) && Digram(s))
  {
    var u := MarkAfter(s, Protected2, Keep);
    MarkedWindow(s, Protected2, Keep);
    KeepIsNoLetter();
    if |s| > 1 && !Protected2(s) {
      MarkedWindowThird(s, Protected2, Keep);
      if Protected2(s[1..]) {
        DigramBlocked(u);
        DigramThenNoPair(s);
      } else {
        DigramSees(s, u);
      }
    } else if !Protected2(s) {
      DigramSees(s, u);
    } else {
      DigramBlocked(u);
    }
  }

  /** The digram pattern looks at three characters only. */
  lemma {:induction false} DigramSees(s: string, u: string)
    requires At(u, 0) == At(s, 0) && At(u, 1) == At(s, 1) && At(u, 2) == At(s, 2)
    ensures Digram(u) == Digram(s)
  {
  }

  /** The digram pattern never matches with a `§` among its three characters. */
  lemma {:induction false} DigramBlocked(u: string)
    requires At(u, 1) == Keep || At(u, 2) == Keep
    ensures !Digram(u)
  {
  }

  /** The second and third characters of a digram are never a protected pair. */
  lemma {:induction false} DigramThenNoPair(s: string)
    requires |s| > 1
    ensures Digram(s) ==> !Protected2(s[1..])
  {
    assert At(s[1..], 0) == At(s, 1) && At(s[1..], 1) == At(s, 2);
  }

  /** Every trigram starts with a pair the first two steps protect, so the trigram step
      never matches. */
  lemma {:induction false} StepTrigram(s: string)
    requires |s| > 0
    ensures Trigram(MarkAfter(s, Protected3, Keep)) == (!Protected3(s) && Trigram(s))
    ensures !Trigram(MarkAfter(s, Protected3, Keep))
  {
    MarkedWindow(s, Protected3, Keep);
  }

  /** The pattern for a pair of consonants looks one character ahead, so it sees a `§`
      wherever an earlier step matched and the text everywhere else. */
  lemma {:induction false} StepMultiCons(s: string, p: string -> bool)
    requires |s| > 0
    ensures MultiCons(MarkAfter(s, p, Keep)) == (!p(s) && MultiCons(s))
  {
    MarkedWindow(s, p, Keep);
    KeepIsNoLetter();
  }

  lemma {:induction false} ProtectMuteLiquid(t: string)
    ensures MarkAfter(MarkAfter(t, Impure, Keep), MuteLiquid, Keep) == MarkAfter(t, Protected2, Keep)
  {
    forall s {:trigger MuteLiquid(MarkAfter(s, Impure, Keep))} | |s| > 0
      ensures MuteLiquid(MarkAfter(s, Impure, Keep)) == (!Impure(s) && MuteLiquid(s))
    {
      StepMuteLiquid(s);
    }
    MarkOverMarks(t, Impure, MuteLiquid, Protected2);
  }

  lemma {:induction false} ProtectDigram(t: string)
    ensures MarkAfter(MarkAfter(t, Protected2, Keep), Digram, Keep) == MarkAfter(t, Protected3, Keep)
  {
    forall s {:trigger Digram(MarkAfter(s, Protected2, Keep))} | |s| > 0
      ensures Digram(MarkAfter(s, Protected2, Keep)) == (!Protected2(s) && Digram(s))
    {
      StepDigram(s);
    }
    MarkOverMarks(t, Protected2, Digram, Protected3);
  }

  lemma {:induction false} ProtectTrigram(t: string)
    ensures MarkAfter(MarkAfter(t, Protected3, Keep), Trigram, Keep) == MarkAfter(t, Protected4, Keep)
  {
    forall s {:trigger Trigram(MarkAfter(s, Protected3, Keep))} | |s| > 0
      ensures Trigram(MarkAfter(s, Protected3, Keep)) == (!Protected3(s) && Trigram(s))
    {
      StepTrigram(s);
    }
    MarkOverMarks(t, Protected3, Trigram, Protected4);
  }

  lemma {:induction false} SplitRemaining(t: string)
    requires Keep !in t
    ensures Remove(MarkAfter(MarkAfter(t, Protected4, Keep), MultiCons, '#'), {Keep}) == MarkAfter(t, MultiConsSplit, '#')
  {
    forall s {:trigger MultiCons(MarkAfter(s, Protected4, Keep))} | |s| > 0
      ensures MultiCons(MarkAfter(s, Protected4, Keep)) == (!Protected4(s) && MultiCons(s))
    {
      StepMultiCons(s, Protected4);
    }
    FinalMarks(t, Protected4, MultiCons, MultiConsSplit);
  }

  /** `_split_multiple_cons` on text without markers puts `#` after exactly the consonants
      that are followed by a consonant, except for an impure s, a mute followed by a liquid and
      the first letter of a digram or trigram; no `§` survives. */
  lemma {:induction false} SplitMultipleConsMarks(t: string)
    requires Plain(t)
    ensures SplitMultipleCons(t) == MarkAfter(t, MultiConsSplit, '#')
  {
    assert '@' in Markers && Keep in Markers;
    MarkWithIsMarkAfter(t, Impure, Keep);
    var out1 := MarkAfter(t, Impure, Keep);
    MarkAfterKeepsOut(t, Impure, Keep, '@');
    MarkWithIsMarkAfter(out1, MuteLiquid, Keep);
    ProtectMuteLiquid(t);
    var out2 := MarkAfter(t, Protected2, Keep);
    MarkAfterKeepsOut(t, Protected2, Keep, '@');
    MarkWithIsMarkAfter(out2, Digram, Keep);
    ProtectDigram(t);
    var out3 := MarkAfter(t, Protected3, Keep);
    MarkAfterKeepsOut(t, Protected3, Keep, '@');
    MarkWithIsMarkAfter(out3, Trigram, Keep);
    ProtectTrigram(t);
    var out4 := MarkAfter(t, Protected4, Keep);
    MarkAfterKeepsOut(t, Protected4, Keep, '@');
    MarkWithIsMarkAfter(out4, MultiCons, '#');
    var out5 := MarkAfter(out4, MultiCons, '#');
    ConcatSplitRemoves(out5, Keep);
    SplitRemaining(t);
  }

  /** `_split_double_cons` on text without `@` puts `#` after each consonant followed by the
      same consonant (in either case) and after each c followed by a q. */
  lemma {:induction false} SplitDoubleConsMarks(t: string)
    requires '@' !in t
    ensures SplitDoubleCons(t) == MarkAfter(t, DoubleCons, '#')
  {
    MarkWithIsMarkAfter(t, DoubleCons, '#');
  }

  /** `_split_dieresis` on text without `@` puts `#` between a vowel with a dieresis and a
      plain vowel, in either order. */
  lemma {:induction false} SplitDieresisMarks(t: string)
    requires '@' !in t
    ensures SplitDieresis(t) == MarkAfter(t, Dieresis, '#')
  {
    MarkWithIsMarkAfter(t, Dieresis, '#');
  }

  /** The hiatus scan only inserts `@`. */
  lemma {:induction false} HiatusMarkErase(s: string)
    ensures Remove(HiatusMark(s), {'@'}) == Remove(s, {'@'})
    decreases |s|
  {
    if |s| > 0 {
      var n := HiatusMatch(s);
      if n > 0 {
        assert HiatusMark(s) == s[..n] + ['@'] + HiatusMark(s[n..]);
        HiatusMarkErase(s[n..]);
        RemoveInsert(s, n, '@', HiatusMark(s[n..]), {'@'});
      } else {
        assert HiatusMark(s) == [s[0]] + HiatusMark(s[1..]);
        HiatusMarkErase(s[1..]);
        RemoveKeepFirst(s, HiatusMark(s[1..]), {'@'});
      }
    }
  }

  /** The steps that mark consonant groups and dieresis only insert `#`, and no `@`. */
  lemma {:induction false} ConsonantSplitsErase(t: string)
    requires Plain(t)
    ensures var x := SplitDieresis(SplitDoubleCons(SplitMultipleCons(t)));
      Remove(x, {'#'}) == t && '@' !in x
  {
    assert '#' in Markers && '@' in Markers;
    RemoveNone(t, {'#'});
    SplitMultipleConsMarks(t);
    var x1 := MarkAfter(t, MultiConsSplit, '#');
    MarkAfterErase(t, MultiConsSplit, '#');
    MarkAfterKeepsOut(t, MultiConsSplit, '#', '@');
    SplitDoubleConsMarks(x1);
    var x2 := MarkAfter(x1, DoubleCons, '#');
    MarkAfterErase(x1, DoubleCons, '#');
    MarkAfterKeepsOut(x1, DoubleCons, '#', '@');
    SplitDieresisMarks(x2);
    MarkAfterErase(x2, Dieresis, '#');
    MarkAfterKeepsOut(x2, Dieresis, '#', '@');
  }

  /** `_split_hiatus` only turns the `@` of its scan into `#`: deleting `#` from its result
      deletes `#` and any `@` from its input. */
  lemma {:induction false} SplitHiatusErase(x: string)
    ensures Remove(SplitHiatus(x), {'#'}) == Remove(Remove(x, {'#'}), {'@'})
  {
    var h := HiatusMark(x);
    JoinSplitReplaces(h, '@', '#');
    RemoveReplace(h, '@', '#');
    RemoveRemove(h, {'@'}, {'#'});
    HiatusMarkErase(x);
    RemoveRemove(x, {'@'}, {'#'});
    RemoveRemove(x, {'#'}, {'@'});
    assert {'@'} + {'#'} == {'#'} + {'@'} == {'@', '#'};
  }

  /** The first phase of syllabification only inserts `#`: on text without markers,
      deleting the `#` gives the text back, so every other character is kept. */
  lemma {:induction false} InitialSplitsErase(t: string)
    requires Plain(t)
    ensures Remove(InitialSplits(t), {'#'}) == t
    ensures forall c :: c != '#' ==> (c in InitialSplits(t) <==> c in t)
  {
    ConsonantSplitsErase(t);
    var x := SplitDieresis(SplitDoubleCons(SplitMultipleCons(t)));
    SplitHiatusErase(x);
    assert '@' in Markers;
    RemoveNone(t, {'@'});
    RemoveKeeps(InitialSplits(t), {'#'});
  }

  /** The second phase of syllabification, as the heuristic code does it, inserts `#` and
      nothing else into a word without the braces and `§` it uses as temporary markers. */
  ghost predicate FinalSplitsOnlyInsertHashes(env: Env)
  {
    forall w :: '{' !in w && '}' !in w && Keep !in w ==>
      Remove(env.finalSplits(w), {'#'}) == Remove(w, {'#'})
  }

  /** `syllabify_block` keeps the text: deleting the syllable separators from its result gives
      the text back, when the text carries no markers and the second phase only inserts `#`. */
  lemma {:induction false} SyllabifyBlockErase(env: Env, text: string, synalepha: bool)
    requires Plain(text) && '{' !in text && '}' !in text
    requires FinalSplitsOnlyInsertHashes(env)
    ensures Remove(SyllabifyBlock(env, text, synalepha), {'#'}) == text
  {
    var words := Words(text, synalepha);
    var syllables := seq(|words|, i requires 0 <= i < |words| => SyllabifyWord(env, words[i]));
    WordsCover(text, synalepha);
    forall i | 0 <= i < |words|
      ensures Remove(syllables[i], {'#'}) == words[i]
    {
      forall c | c in words[i]
        ensures c in text
      {
        InConcat(words, i, c);
      }
      InitialSplitsErase(words[i]);
      RemoveNone(words[i], {'#'});
    }
    RemoveJoin(syllables, '#');
    RemoveConcat(syllables, words, {'#'});
  }

  /** A double consonant splits. */
  lemma {:induction false} SplitDoubleConsAlle()
    ensures SplitDoubleCons("alle") == "al#le"
  {
    SplitDoubleConsMarks("alle");
  }
}
