/** `metrics.py`: the meter and rhyme scorers of one tercet window, the last words of the
    verses, and `evaluate`, which scores a generated canto window by window and aggregates. */
module Metrics {
  import opened Builtins
  import opened Externals
  import opened Syllabification
  import opened Terzine
  import opened Ngrams
  import Plagiarism
  import Repetitivity

  function Abs(x: int): nat
  {
    if x < 0 then -x else x
  }

  /** The verses of a text: its lines, blank ones left out. */
  function Verses(text: string): seq<string>
  {
    NonEmpty(Split(text, '\n'))
  }

  // ---------------------------------------------------------------------
  // Last words.

  /** `split_words(line, False)[-1]`: the last piece of the verse, from the last accepted cut
      (or the start, when no cut is accepted) to the end; the list is never empty. */
  function LastWord(line: string): (w: string)
    ensures |w| <= |line| && line[|line| - |w|..] == w
    ensures var ms := BoundaryMatches(line, 0); var cs := Cuts(line, ms, |ms|, false);
      w == Slice(line, if cs == [] then 0 else cs[|cs| - 1], |line|)
  {
    WordsLast(line, false);
    var ws := Words(line, false);
    ws[|ws| - 1]
  }

  /** A normalised word: no `#`, no whitespace and no punctuation. */
  predicate Clean(w: string)
  {
    forall c :: c in w ==> c != '#' && c !in Whitespace && c !in Punctuation
  }

  /** `textip_hashes(prettify(word, True))` leaves a clean word. */
  lemma {:induction false} NormalisedClean(env: Env, w: string)
    ensures Clean(TextipHashes(Prettify(env, w, true)))
  {
    RemoveKeeps(Prettify(env, w, true), {'#'});
  }

  /** `_extract_last_words`: one normalised last word per verse. */
  function ExtractLastWords(env: Env, text: string): (r: seq<string>)
    ensures |r| == |Verses(text)|
    ensures forall k :: 0 <= k < |r| ==> Clean(r[k])
    ensures forall k :: 0 <= k < |r| ==> r[k] == TextipHashes(Prettify(env, LastWord(Verses(text)[k]), true))
  {
    var verses := Verses(text);
    var out := seq(|verses|, i requires 0 <= i < |verses| => TextipHashes(Prettify(env, LastWord(verses[i]), true)));
    assert forall k :: 0 <= k < |out| ==> Clean(out[k]) by {
      forall k | 0 <= k < |out| ensures Clean(out[k]) {
        NormalisedClean(env, LastWord(verses[k]));
      }
    }
    out
  }

  // ---------------------------------------------------------------------
  // Meter.

  /** The syllables `syllabify_block` finds in a verse once its `#` are deleted: the non-empty
      pieces between the `#` separators. */
  function SyllableCount(env: Env, line: string, synalepha: bool): nat
  {
    |NonEmpty(Split(SyllabifyBlock(env, TextipHashes(line), synalepha), '#'))|
  }

  /** 10 syllables when the verse ends on a stressed syllable, 11 otherwise. */
  function Target(env: Env, line: string): int
  {
    if env.isTronca(LastWord(line)) then 10 else 11
  }

  /** One verse's contribution: `1 - |n - target| / target`, or 1 when `permissive` and the
      count is within one of the target. */
  function LineScore(n: int, target: int, permissive: bool): real
    requires target > 0
  {
    if !permissive || Abs(n - target) > 1 then 1.0 - Abs(n - target) as real / target as real
    else 1.0
  }

  /** The contribution of one verse to `_hendecasyllabicness`. */
  function LineMeter(env: Env, line: string, synalepha: bool, permissive: bool): real
  {
    LineScore(SyllableCount(env, line, synalepha), Target(env, line), permissive)
  }

  /** Each verse's contribution, as a function of the verse. */
  function LineMeters(env: Env, synalepha: bool, permissive: bool): string -> real
  {
    line => LineMeter(env, line, synalepha, permissive)
  }

  /** The running sum of `_hendecasyllabicness` over `lines`: blank lines add nothing. */
  function MeterSum(meter: string -> real, lines: seq<string>): real
    decreases |lines|
  {
    if |lines| == 0 then 0.0
    else
      var line := lines[|lines| - 1];
      MeterSum(meter, lines[..|lines| - 1]) + (if line != "" then meter(line) else 0.0)
  }

  /** The value `_hendecasyllabicness(text, synalepha, permissive)` returns: the sum is divided
      by 4 whatever the number of verses. */
  function Hendecasyllabicness(env: Env, text: string, synalepha: bool, permissive: bool): real
  {
    MeterSum(LineMeters(env, synalepha, permissive), Split(text, '\n')) / 4.0
  }

  /** `_hendecasyllabicness`, line by line as the source does it. */
  method ComputeHendecasyllabicness(env: Env, text: string, synalepha: bool, permissive: bool) returns (result: real)
    ensures result == Hendecasyllabicness(env, text, synalepha, permissive)
  {
    var score := 0.0;
    var lines := Split(text, '\n');
    ghost var meter := LineMeters(env, synalepha, permissive);
    for i := 0 to |lines|
      invariant score == MeterSum(meter, lines[..i])
    {
      var line := lines[i];
      MeterSumStep(meter, lines, i);
      if line != "" {
        var contribution := ScoreVerse(env, line, synalepha, permissive);
        assert meter(line) == contribution;
        score := score + contribution;
      }
    }
    assert lines[..|lines|] == lines;
    result := score / 4.0;
  }

  /** The body of the loop of `_hendecasyllabicness` for one verse: count its syllables, pick
      its target, score the count against the target. */
  method ScoreVerse(env: Env, line: string, synalepha: bool, permissive: bool) returns (contribution: real)
    ensures contribution == LineMeter(env, line, synalepha, permissive)
    ensures contribution <= 1.0
    ensures contribution == 1.0 <==>
      var n, target := SyllableCount(env, line, synalepha), Target(env, line);
      n == target || (permissive && Abs(n - target) <= 1)
  {
    var n := CountSyllables(env, line, synalepha);
    var target := PickTarget(env, line);
    contribution := ScoreCount(n, target, permissive);
  }

  /** The score of a count of syllables against the target. */
  method ScoreCount(n: int, target: int, permissive: bool) returns (contribution: real)
    requires target > 0
    ensures contribution == LineScore(n, target, permissive)
    ensures contribution <= 1.0
    ensures contribution == 1.0 <==> n == target || (permissive && Abs(n - target) <= 1)
  {
    if !permissive || Abs(n - target) > 1 {
      contribution := 1.0 - Abs(n - target) as real / target as real;
    } else {
      contribution := 1.0;
    }
    LineScoreAtMostOne(n, target, permissive);
  }

  /** Syllabify the verse without its `#` and count the non-empty syllables. */
  method CountSyllables(env: Env, line: string, synalepha: bool) returns (n: int)
    ensures n == SyllableCount(env, line, synalepha)
  {
    var tmp := SyllabifyBlock(env, TextipHashes(line), synalepha);
    var syllables := NonEmpty(Split(tmp, '#'));
    n := |syllables|;
  }

  /** The target of the verse, from the last of its words. */
  method PickTarget(env: Env, line: string) returns (target: int)
    ensures target == Target(env, line)
  {
    var words := SplitWords(line, false);
    WordsCover(line, false);
    target := if env.isTronca(words[|words| - 1]) then 10 else 11;
  }

  /** Extending the lines by one adds that line's contribution, if it is a verse. */
  lemma {:induction false} MeterSumStep(meter: string -> real, lines: seq<string>, i: int)
    requires 0 <= i < |lines|
    ensures MeterSum(meter, lines[..i + 1]) == MeterSum(meter, lines[..i]) + (if lines[i] != "" then meter(lines[i]) else 0.0)
  {
    assert lines[..i + 1][..i] == lines[..i];
  }

  /** A verse scores at most 1, and exactly 1 when its count hits the target or, permissively,
      misses it by one. */
  lemma {:induction false} LineScoreAtMostOne(n: int, target: int, permissive: bool)
    requires target > 0
    ensures LineScore(n, target, permissive) <= 1.0
    ensures LineScore(n, target, permissive) == 1.0 <==> n == target || (permissive && Abs(n - target) <= 1)
  {
    if !permissive || Abs(n - target) > 1 {
      var q := Abs(n - target) as real / target as real;
      assert q * target as real == Abs(n - target) as real;
      assert q == 0.0 <==> n == target;
    }
  }

  /** The score is not bounded below by 0: it is negative exactly when the count is more than
      twice the target. */
  lemma {:induction false} LineScoreSign(n: nat, target: int, permissive: bool)
    requires target > 0
    ensures LineScore(n, target, permissive) >= 0.0 <==> n <= 2 * target
  {
    if !permissive || Abs(n - target) > 1 {
      var q := Abs(n - target) as real / target as real;
      assert q * target as real == Abs(n - target) as real;
      assert q <= 1.0 <==> Abs(n - target) <= target;
    }
  }

  /** Without `permissive` the score falls strictly as the count moves away from the target. */
  lemma {:induction false} LineScoreDecreasing(n1: int, n2: int, target: int)
    requires target > 0 && Abs(n1 - target) < Abs(n2 - target)
    ensures LineScore(n1, target, false) > LineScore(n2, target, false)
  {
    DivideLess(Abs(n1 - target) as real, Abs(n2 - target) as real, target as real);
  }

  /** Dividing by a positive number keeps a strict order. */
  lemma {:induction false} DivideLess(a: real, b: real, t: real)
    requires t > 0.0 && a < b
    ensures a / t < b / t
  {
    var d := b / t - a / t;
    assert d * t == b - a;
  }

  /** The contribution of a verse is not bounded below by 0: a count of 23 syllables against a
      target of 11 contributes a negative amount. */
  lemma {:induction false} NegativeLineScore()
    ensures LineScore(23, 11, false) < 0.0
  {
    LineScoreSign(23, 11, false);
  }

  /** A verse scores at most 1, and exactly 1 when its syllable count hits its target or,
      permissively, misses it by one. */
  lemma {:induction false} LineMeterAtMostOne(env: Env, line: string, synalepha: bool, permissive: bool)
    ensures LineMeter(env, line, synalepha, permissive) <= 1.0
    ensures LineMeter(env, line, synalepha, permissive) == 1.0 <==>
      var n, target := SyllableCount(env, line, synalepha), Target(env, line);
      n == target || (permissive && Abs(n - target) <= 1)
  {
    LineScoreAtMostOne(SyllableCount(env, line, synalepha), Target(env, line), permissive);
  }

  /** A sum of contributions of at most 1 is at most the number of verses, and reaches it
      exactly when every verse contributes 1. */
  lemma {:induction false} MeterSumBound(meter: string -> real, lines: seq<string>)
    requires forall k :: 0 <= k < |lines| && lines[k] != "" ==> meter(lines[k]) <= 1.0
    ensures MeterSum(meter, lines) <= |NonEmpty(lines)| as real
    ensures MeterSum(meter, lines) == |NonEmpty(lines)| as real <==>
      forall k :: 0 <= k < |lines| && lines[k] != "" ==> meter(lines[k]) == 1.0
    decreases |lines|
  {
    if |lines| > 0 {
      var init := lines[..|lines| - 1];
      var line := lines[|lines| - 1];
      assert forall k :: 0 <= k < |init| ==> init[k] == lines[k];
      MeterSumBound(meter, init);
      NonEmptyAppend(init, [line]);
      assert init + [line] == lines;
      if line != "" {
        assert NonEmpty([line]) == [line];
      } else {
        assert NonEmpty([line]) == [];
      }
    }
  }

  /** An aligned window has four verses, so its meter score is at most 1, and exactly 1 when each
      of the four verses scores 1. */
  lemma {:induction false} TercetMeter(env: Env, w: string, synalepha: bool, permissive: bool)
    requires IsTercet(w)
    ensures Hendecasyllabicness(env, w, synalepha, permissive) <= 1.0
    ensures Hendecasyllabicness(env, w, synalepha, permissive) == 1.0 <==>
      forall k :: 0 <= k < 6 && Split(w, '\n')[k] != "" ==> LineMeter(env, Split(w, '\n')[k], synalepha, permissive) == 1.0
  {
    var ls := Split(w, '\n');
    var meter := LineMeters(env, synalepha, permissive);
    forall k | 0 <= k < |ls| ensures meter(ls[k]) == LineMeter(env, ls[k], synalepha, permissive) <= 1.0 {
      LineMeterAtMostOne(env, ls[k], synalepha, permissive);
    }
    TercetVerses(w);
    MeterSumBound(meter, ls);
  }

  /** An aligned window holds four verses. */
  lemma {:induction false} TercetVerses(w: string)
    requires IsTercet(w)
    ensures |Verses(w)| == 4
  {
    var ps := Split(w, '\n');
    assert ps == [ps[0]] + [ps[1]] + [ps[2]] + [ps[3]] + [ps[4]] + [ps[5]];
    NonEmptyAppend([ps[0]] + [ps[1]] + [ps[2]] + [ps[3]] + [ps[4]], [ps[5]]);
    NonEmptyAppend([ps[0]] + [ps[1]] + [ps[2]] + [ps[3]], [ps[4]]);
    NonEmptyAppend([ps[0]] + [ps[1]] + [ps[2]], [ps[3]]);
    NonEmptyAppend([ps[0]] + [ps[1]], [ps[2]]);
    NonEmptyAppend([ps[0]], [ps[1]]);
    assert NonEmpty([ps[5]]) == [] && NonEmpty([ps[3]]) == [];
    assert NonEmpty([ps[0]]) == [ps[0]] && NonEmpty([ps[1]]) == [ps[1]];
    assert NonEmpty([ps[2]]) == [ps[2]] && NonEmpty([ps[4]]) == [ps[4]];
  }

  // ---------------------------------------------------------------------
  // Rhyme.

  /** The three rhyme checks on the last words: B against B, C against C, and the second B
      against the next B. */
  function RhymeScores(env: Env, words: seq<string>): (scores: seq<real>)
    requires |words| >= 7
    ensures |scores| == 3
  {
    [env.rhymeScore(words[1], words[3]), env.rhymeScore(words[3], words[5]), env.rhymeScore(words[4], words[6])]
  }

  /** The checks whose score reaches the threshold. */
  function Passes(scores: seq<real>, threshold: real): int -> bool
  {
    i => 0 <= i < |scores| && scores[i] >= threshold
  }

  /** The share of the three checks that pass. */
  function RhymeShare(scores: seq<real>, threshold: real): real
    requires |scores| == 3
  {
    Count(Passes(scores, threshold), 3) as real / 3.0
  }

  /** `_rhymeness` on the last words of the verses: `IndexError` when there are fewer than
      seven. */
  function RhymenessOfWords(env: Env, words: seq<string>, threshold: real): Result<real>
  {
    if |words| < 7 then Failure(IndexError) else Success(RhymeShare(RhymeScores(env, words), threshold))
  }

  /** The value `_rhymeness(text, threshold)` returns, or the exception it raises. */
  function Rhymeness(env: Env, text: string, threshold: real): Result<real>
  {
    RhymenessOfWords(env, ExtractLastWords(env, text), threshold)
  }

  /** `_rhymeness`: the last words, then the three checks. */
  method ComputeRhymeness(env: Env, text: string, threshold: real) returns (r: Result<real>)
    ensures r == Rhymeness(env, text, threshold)
  {
    var lastWords := ExtractLastWords(env, text);
    r := ScoreRhymes(env, lastWords, threshold);
  }

  /** The body of `_rhymeness` after the last words are extracted: one pass over the three
      checks, adding 1 for each that passes. */
  method ScoreRhymes(env: Env, lastWords: seq<string>, threshold: real) returns (r: Result<real>)
    ensures r == RhymenessOfWords(env, lastWords, threshold)
  {
    if |lastWords| < 7 {
      return Failure(IndexError);
    }
    var rhymes := [env.rhymeScore(lastWords[1], lastWords[3]), env.rhymeScore(lastWords[3], lastWords[5]),
                   env.rhymeScore(lastWords[4], lastWords[6])];
    var score := 0.0;
    for i := 0 to |rhymes|
      invariant score == Count(Passes(rhymes, threshold), i) as real
    {
      if rhymes[i] >= threshold {
        score := score + 1.0;
      }
    }
    r := Success(score / |rhymes| as real);
  }

  /** The share is one of 0, 1/3, 2/3 and 1; it is 1 exactly when all three checks pass and 0
      exactly when none does. */
  lemma {:induction false} RhymeShareValues(scores: seq<real>, threshold: real)
    requires |scores| == 3
    ensures RhymeShare(scores, threshold) in {0.0, 1.0 / 3.0, 2.0 / 3.0, 1.0}
    ensures RhymeShare(scores, threshold) == 1.0 <==> forall i :: 0 <= i < 3 ==> scores[i] >= threshold
    ensures RhymeShare(scores, threshold) == 0.0 <==> forall i :: 0 <= i < 3 ==> scores[i] < threshold
  {
    var hit := Passes(scores, threshold);
    CountBounds(hit, 3);
    CountNone(hit, 3);
    CountAll(hit, 3);
    forall i ensures hit(i) == (0 <= i < 3 && scores[i] >= threshold) {
    }
    var c := Count(hit, 3);
    assert c == 0 || c == 1 || c == 2 || c == 3;
  }

  /** On the last words the rhyme score fails, with `IndexError`, exactly when there are fewer
      than seven; otherwise it is one of 0, 1/3, 2/3 and 1, it is 1 exactly when the three rhymes
      B-B, C-C and B-B all reach the threshold, and 0 exactly when none does. */
  lemma {:induction false} RhymenessOfWordsValues(env: Env, ws: seq<string>, threshold: real)
    ensures RhymenessOfWords(env, ws, threshold).Failure? <==> |ws| < 7
    ensures RhymenessOfWords(env, ws, threshold).Failure? ==> RhymenessOfWords(env, ws, threshold).fault == IndexError
    ensures RhymenessOfWords(env, ws, threshold).Success? ==>
      RhymenessOfWords(env, ws, threshold).value in {0.0, 1.0 / 3.0, 2.0 / 3.0, 1.0}
    ensures RhymenessOfWords(env, ws, threshold).Success? ==>
      (RhymenessOfWords(env, ws, threshold).value == 1.0 <==>
        env.rhymeScore(ws[1], ws[3]) >= threshold && env.rhymeScore(ws[3], ws[5]) >= threshold &&
        env.rhymeScore(ws[4], ws[6]) >= threshold)
    ensures RhymenessOfWords(env, ws, threshold).Success? ==>
      (RhymenessOfWords(env, ws, threshold).value == 0.0 <==>
        env.rhymeScore(ws[1], ws[3]) < threshold && env.rhymeScore(ws[3], ws[5]) < threshold &&
        env.rhymeScore(ws[4], ws[6]) < threshold)
  {
    if |ws| >= 7 {
      var scores := RhymeScores(env, ws);
      RhymeShareValues(scores, threshold);
      assert scores[0] == env.rhymeScore(ws[1], ws[3]);
      assert scores[1] == env.rhymeScore(ws[3], ws[5]);
      assert scores[2] == env.rhymeScore(ws[4], ws[6]);
    }
  }

  /** On a text, the rhyme score fails exactly when it has fewer than seven verses. */
  lemma {:induction false} RhymenessFails(env: Env, text: string, threshold: real)
    ensures Rhymeness(env, text, threshold).Failure? <==> |Verses(text)| < 7
    ensures Rhymeness(env, text, threshold).Failure? ==> Rhymeness(env, text, threshold).fault == IndexError
    ensures Rhymeness(env, text, threshold).Success? ==> 0.0 <= Rhymeness(env, text, threshold).value <= 1.0
  {
    RhymenessOfWordsValues(env, ExtractLastWords(env, text), threshold);
  }

  // ---------------------------------------------------------------------
  // Evaluation.

  /** The seven entries of the dictionary `evaluate` returns. */
  datatype Scores = Scores(
    putativeTercets: int,
    wellFormedTercets: int,
    structuredness: real,
    hendecasyllabicness: real,
    rhymeness: real,
    plagiarism: real,
    repetitivity: real)

  /** The text `_rhymeness` is given for a window after the previous one: the previous window
      followed by the lines of this one after its first. */
  function PairText(prev: string, next: string): string
  {
    prev + Join(Split(next, '\n')[1..], '\n')
  }

  /** The meter score of a window. */
  function Meters(env: Env, synalepha: bool, permissive: bool): string -> real
  {
    w => Hendecasyllabicness(env, w, synalepha, permissive)
  }

  /** The rhyme score of a window after the previous one. */
  function Rhymes(env: Env, threshold: real): (string, string) -> Result<real>
  {
    (prev, next) => Rhymeness(env, PairText(prev, next), threshold)
  }

  /** The two running sums of the loop over `terzine[1:]` once it has reached window `i`
      (windows `1 .. i-1` added), or the fault of the first rhyme score that raised. */
  function Sums(meter: string -> real, rhyme: (string, string) -> Result<real>, ws: seq<string>, i: int): Result<(real, real)>
    requires 1 <= i <= |ws|
    decreases i
  {
    if i == 1 then Success((0.0, 0.0))
    else
      var before := Sums(meter, rhyme, ws, i - 1);
      if before.Failure? then before
      else
        var r := rhyme(ws[i - 2], ws[i - 1]);
        if r.Failure? then Failure(r.fault)
        else Success((before.value.0 + meter(ws[i - 1]), before.value.1 + r.value))
  }

  /** What `evaluate` does after its loop, given the number `k >= 1` of windows, the loop's
      outcome and the two n-gram scores: the first fault raised, else the seven entries. */
  function Aggregate(text: string, k: int, sums: Result<(real, real)>, plagiarism: Result<real>, repetitivity: Result<real>): Result<Scores>
    requires k >= 1
  {
    if sums.Failure? then Failure(sums.fault)
    else if plagiarism.Failure? then Failure(plagiarism.fault)
    else if repetitivity.Failure? then Failure(repetitivity.fault)
    else if k == 1 then Failure(ZeroDivisionError)
    else
      var pieces := |Split(text, '\n')|;
      Success(Scores((pieces - 1) / 4, k, (4 * k + 2) as real / pieces as real,
        sums.value.0 / k as real, sums.value.1 / (k - 1) as real, plagiarism.value, repetitivity.value))
  }

  /** The value `evaluate(text, original_text, False, synalepha, permissive, rhyme_threshold)`
      returns, or the exception it raises: `IndexError` at `terzine[0]` when no window is found. */
  function Evaluate(env: Env, text: string, original: string, synalepha: bool, permissive: bool, threshold: real): Result<Scores>
  {
    var ws := Terzine.Terzine(text);
    if |ws| == 0 then Failure(IndexError)
    else
      Aggregate(text, |ws|, Sums(Meters(env, synalepha, permissive), Rhymes(env, threshold), ws, |ws|),
        Plagiarism.NgramsPlagiarism(env, text, original, Plagiarism.DefaultN),
        Repetitivity.NgramsRepetitivity(env, text, Repetitivity.DefaultN))
  }

  /** `evaluate`, step by step as the source does it. */
  method ComputeEvaluate(env: Env, text: string, original: string, synalepha: bool, permissive: bool, threshold: real)
    returns (r: Result<Scores>)
    ensures r == Evaluate(env, text, original, synalepha, permissive, threshold)
  {
    var terzine := ExtractTerzine(text);
    if |terzine| == 0 {
      return Failure(IndexError);
    }
    var sums := ScoreWindows(Meters(env, synalepha, permissive), Rhymes(env, threshold), terzine);
    if sums.Failure? {
      return Failure(sums.fault);
    }
    var (meterSum, rhymeSum) := sums.value;
    var plagiarism := Plagiarism.ComputePlagiarism(env, text, original, Plagiarism.DefaultN);
    if plagiarism.Failure? {
      return Failure(plagiarism.fault);
    }
    var repetitivity := Repetitivity.ComputeRepetitivity(env, text, Repetitivity.DefaultN);
    if repetitivity.Failure? {
      return Failure(repetitivity.fault);
    }
    r := Summarise(text, |terzine|, meterSum, rhymeSum, plagiarism.value, repetitivity.value);
  }

  /** The end of `evaluate`: the averages and the ratio of the seven entries, or the
      `ZeroDivisionError` of the rhyme average when there is a single window. */
  method Summarise(text: string, k: int, meterSum: real, rhymeSum: real, plagiarism: real, repetitivity: real)
    returns (r: Result<Scores>)
    requires k >= 1
    ensures r == Aggregate(text, k, Success((meterSum, rhymeSum)), Success(plagiarism), Success(repetitivity))
    ensures r.Success? <==> k >= 2
    ensures r.Failure? ==> r.fault == ZeroDivisionError
    ensures var pieces := |Split(text, '\n')|;
      r.Success? ==>
        && r.value.putativeTercets == (pieces - 1) / 4
        && r.value.wellFormedTercets == k
        && (r.value.structuredness == 1.0 <==> pieces == 4 * k + 2)
    ensures r.Success? && meterSum <= (k - 1) as real ==> r.value.hendecasyllabicness < 1.0
    ensures r.Success? && 0.0 <= rhymeSum <= (k - 1) as real ==> 0.0 <= r.value.rhymeness <= 1.0
  {
    var lines := |Split(text, '\n')|;
    var structuredness := (4 * k + 2) as real / lines as real;
    var avgMeter := meterSum / k as real;
    if k - 1 == 0 {
      return Failure(ZeroDivisionError);
    }
    var avgRhyme := rhymeSum / (k - 1) as real;
    RatioOne((4 * k + 2) as real, lines as real);
    MeanBelowOne(meterSum, k);
    MeanInUnit(rhymeSum, k - 1);
    r := Success(Scores((lines - 1) / 4, k, structuredness, avgMeter, avgRhyme, plagiarism, repetitivity));
  }

  /** The loop of `evaluate` over `terzine[1:]`: the meter score of each window and the rhyme
      score of each window after the previous one, summed; the first rhyme fault ends it. */
  method ScoreWindows(meter: string -> real, rhyme: (string, string) -> Result<real>, terzine: seq<string>)
    returns (sums: Result<(real, real)>)
    requires |terzine| >= 1
    ensures sums == Sums(meter, rhyme, terzine, |terzine|)
  {
    var avgMeter, avgRhyme := 0.0, 0.0;
    var lastTerzina := terzine[0];
    var i := 1;
    while i < |terzine|
      invariant 1 <= i <= |terzine|
      invariant lastTerzina == terzine[i - 1]
      invariant Sums(meter, rhyme, terzine, i) == Success((avgMeter, avgRhyme))
    {
      var terzina := terzine[i];
      var hendecasyllabicness := meter(terzina);
      var rhymeness := rhyme(lastTerzina, terzina);
      if rhymeness.Failure? {
        SumsFails(meter, rhyme, terzine, i, avgMeter, avgRhyme, rhymeness);
        return Failure(rhymeness.fault);
      }
      SumsGrows(meter, rhyme, terzine, i, avgMeter, avgRhyme, hendecasyllabicness, rhymeness);
      avgMeter := avgMeter + hendecasyllabicness;
      avgRhyme := avgRhyme + rhymeness.value;
      lastTerzina := terzina;
      i := i + 1;
    }
    sums := Success((avgMeter, avgRhyme));
  }

  /** One more window whose rhyme score succeeds: both sums grow by its scores. */
  lemma {:induction false} SumsGrows(meter: string -> real, rhyme: (string, string) -> Result<real>, ws: seq<string>, i: int,
                  meterSum: real, rhymeSum: real, m: real, r: Result<real>)
    requires 1 <= i < |ws| && Sums(meter, rhyme, ws, i) == Success((meterSum, rhymeSum))
    requires m == meter(ws[i]) && r == rhyme(ws[i - 1], ws[i]) && r.Success?
    ensures Sums(meter, rhyme, ws, i + 1) == Success((meterSum + m, rhymeSum + r.value))
  {
  }

  /** One more window whose rhyme score raises: that fault is the loop's outcome. */
  lemma {:induction false} SumsFails(meter: string -> real, rhyme: (string, string) -> Result<real>, ws: seq<string>, i: int,
                  meterSum: real, rhymeSum: real, r: Result<real>)
    requires 1 <= i < |ws| && Sums(meter, rhyme, ws, i) == Success((meterSum, rhymeSum))
    requires r == rhyme(ws[i - 1], ws[i]) && r.Failure?
    ensures Sums(meter, rhyme, ws, |ws|) == Failure(r.fault)
  {
    assert Sums(meter, rhyme, ws, i + 1) == Failure(r.fault);
    SumsFailureStays(meter, rhyme, ws, i + 1, |ws|);
  }

  /** The meter scores of `ws`, added up. */
  function WindowTotal(meter: string -> real, ws: seq<string>): real
    decreases |ws|
  {
    if |ws| == 0 then 0.0 else WindowTotal(meter, ws[..|ws| - 1]) + meter(ws[|ws| - 1])
  }

  /** The rhyme scores of the consecutive pairs of `ws` that do not raise, added up. */
  function RhymeTotal(rhyme: (string, string) -> Result<real>, ws: seq<string>): real
    decreases |ws|
  {
    if |ws| < 2 then 0.0
    else
      var r := rhyme(ws[|ws| - 2], ws[|ws| - 1]);
      RhymeTotal(rhyme, ws[..|ws| - 1]) + (if r.Success? then r.value else 0.0)
  }

  /** The loop over `terzine[1:]` succeeds up to window `i` exactly when no rhyme score of a
      pair before it raises. */
  lemma {:induction false} SumsSucceedIff(meter: string -> real, rhyme: (string, string) -> Result<real>, ws: seq<string>, i: int)
    requires 1 <= i <= |ws|
    ensures Sums(meter, rhyme, ws, i).Success? <==> forall j :: 1 <= j < i ==> rhyme(ws[j - 1], ws[j]).Success?
    decreases i
  {
    if i > 1 {
      SumsSucceedIff(meter, rhyme, ws, i - 1);
    }
  }

  /** When the loop succeeds up to window `i`, its meter sum adds the windows from the second
      on, never the first, and its rhyme sum adds every consecutive pair. */
  lemma {:induction false} SumsTotals(meter: string -> real, rhyme: (string, string) -> Result<real>, ws: seq<string>, i: int)
    requires 1 <= i <= |ws|
    ensures Sums(meter, rhyme, ws, i).Success? ==>
      Sums(meter, rhyme, ws, i).value == (WindowTotal(meter, ws[1..i]), RhymeTotal(rhyme, ws[..i]))
    decreases i
  {
    if i == 1 {
      assert ws[1..i] == [];
    } else {
      SumsTotals(meter, rhyme, ws, i - 1);
      var before := Sums(meter, rhyme, ws, i - 1);
      if before.Success? {
        var r := rhyme(ws[i - 2], ws[i - 1]);
        if r.Success? {
          TotalsStep(meter, rhyme, ws, i);
        }
      }
    }
  }

  /** One more window in both totals. */
  lemma {:induction false} TotalsStep(meter: string -> real, rhyme: (string, string) -> Result<real>, ws: seq<string>, i: int)
    requires 2 <= i <= |ws| && rhyme(ws[i - 2], ws[i - 1]).Success?
    ensures WindowTotal(meter, ws[1..i]) == WindowTotal(meter, ws[1..i - 1]) + meter(ws[i - 1])
    ensures RhymeTotal(rhyme, ws[..i]) == RhymeTotal(rhyme, ws[..i - 1]) + rhyme(ws[i - 2], ws[i - 1]).value
  {
    assert ws[1..i][..i - 2] == ws[1..i - 1] && ws[1..i][i - 2] == ws[i - 1];
    assert ws[..i][..i - 1] == ws[..i - 1] && ws[..i][i - 2] == ws[i - 2] && ws[..i][i - 1] == ws[i - 1];
  }

  /** Once a rhyme score has raised, the loop's outcome is that fault. */
  lemma {:induction false} SumsFailureStays(meter: string -> real, rhyme: (string, string) -> Result<real>, ws: seq<string>, i: int, j: int)
    requires 1 <= i <= j <= |ws| && Sums(meter, rhyme, ws, i).Failure?
    ensures Sums(meter, rhyme, ws, j) == Sums(meter, rhyme, ws, i)
    decreases j - i
  {
    if i < j {
      SumsFailureStays(meter, rhyme, ws, i + 1, j);
    }
  }

  /** The text scored for rhyme between a window and the next aligned one has seven verses,
      whether the first window is aligned or offset. */
  lemma {:induction false} PairVerses(prev: string, next: string)
    requires IsTercet(prev) || IsOffsetTercet(prev)
    requires IsTercet(next)
    ensures |Verses(PairText(prev, next))| == 7
  {
    var xs, ys := Split(prev, '\n'), Split(next, '\n')[1..];
    SplitGlue(prev, next, '\n');
    var zs := xs[..5] + [xs[5] + ys[0]] + ys[1..];
    assert Split(PairText(prev, next), '\n') == zs;
    assert |zs| == 10 && zs[5] != "";
    assert zs[6] != "" && zs[7] == "" && zs[8] != "" && zs[9] == "";
    assert zs[0] != "" && zs[1] != "" && zs[4] != "";
    assert zs[2] == "" <==> zs[3] != "";
    GluedVerses(zs);
  }

  /** Ten lines, blank exactly at position 7, at 9 and at one of 2 and 3, hold seven verses. */
  lemma {:induction false} GluedVerses(zs: seq<string>)
    requires |zs| == 10 && zs[5] != "" && zs[6] != "" && zs[7] == "" && zs[8] != "" && zs[9] == ""
    requires zs[0] != "" && zs[1] != "" && zs[4] != "" && (zs[2] == "" <==> zs[3] != "")
    ensures |NonEmpty(zs)| == 7
  {
    NonEmptyFrom(zs, 9);
    NonEmptyFrom(zs, 8);
    NonEmptyFrom(zs, 7);
    NonEmptyFrom(zs, 6);
    NonEmptyFrom(zs, 5);
    NonEmptyFrom(zs, 4);
    NonEmptyFrom(zs, 3);
    NonEmptyFrom(zs, 2);
    NonEmptyFrom(zs, 1);
    NonEmptyFrom(zs, 0);
    assert zs[0..] == zs;
  }

  /** Within `evaluate`, the rhyme score of a window after the previous one never raises and lies
      in [0, 1], and the meter score of an aligned window is at most 1. */
  lemma {:induction false} PairScores(env: Env, prev: string, next: string, synalepha: bool, permissive: bool, threshold: real)
    requires IsTercet(prev) || IsOffsetTercet(prev)
    requires IsTercet(next)
    ensures Rhymes(env, threshold)(prev, next).Success?
    ensures 0.0 <= Rhymes(env, threshold)(prev, next).value <= 1.0
    ensures Meters(env, synalepha, permissive)(next) <= 1.0
  {
    PairVerses(prev, next);
    RhymenessFails(env, PairText(prev, next), threshold);
    TercetMeter(env, next, synalepha, permissive);
  }

  /** When no rhyme score raises, the loop completes; each window adds at most 1 to the meter
      sum and between 0 and 1 to the rhyme sum. */
  lemma {:induction false} SumsSucceed(meter: string -> real, rhyme: (string, string) -> Result<real>, ws: seq<string>, i: int)
    requires 1 <= i <= |ws|
    requires forall j :: 1 <= j < i ==>
      rhyme(ws[j - 1], ws[j]).Success? && 0.0 <= rhyme(ws[j - 1], ws[j]).value <= 1.0 && meter(ws[j]) <= 1.0
    ensures Sums(meter, rhyme, ws, i).Success?
    ensures Sums(meter, rhyme, ws, i).value.0 <= (i - 1) as real
    ensures 0.0 <= Sums(meter, rhyme, ws, i).value.1 <= (i - 1) as real
    decreases i
  {
    if i > 1 {
      SumsSucceed(meter, rhyme, ws, i - 1);
    }
  }

  /** The loop of `evaluate` never raises: every window after the first is aligned, so each
      rhyme text has seven verses. */
  lemma {:induction false} WindowSums(env: Env, text: string, synalepha: bool, permissive: bool, threshold: real)
    requires |Terzine.Terzine(text)| >= 1
    ensures var ws := Terzine.Terzine(text);
      var sums := Sums(Meters(env, synalepha, permissive), Rhymes(env, threshold), ws, |ws|);
      sums.Success? && sums.value.0 <= (|ws| - 1) as real && 0.0 <= sums.value.1 <= (|ws| - 1) as real
  {
    var ws := Terzine.Terzine(text);
    var meter, rhyme := Meters(env, synalepha, permissive), Rhymes(env, threshold);
    TerzineShapes(text);
    forall j | 1 <= j < |ws|
      ensures rhyme(ws[j - 1], ws[j]).Success? && 0.0 <= rhyme(ws[j - 1], ws[j]).value <= 1.0 && meter(ws[j]) <= 1.0
    {
      PairScores(env, ws[j - 1], ws[j], synalepha, permissive, threshold);
    }
    SumsSucceed(meter, rhyme, ws, |ws|);
  }

  /** How `evaluate` ends: `IndexError` without a window, then the fault of the plagiarism or
      of the repetitivity score, then `ZeroDivisionError` for a single window; the rhyme
      scores never raise. */
  lemma {:induction false} EvaluateOutcome(env: Env, text: string, original: string, synalepha: bool, permissive: bool, threshold: real)
    ensures var k := |Terzine.Terzine(text)|;
      k == 0 ==> Evaluate(env, text, original, synalepha, permissive, threshold) == Failure(IndexError)
    ensures var k, p := |Terzine.Terzine(text)|, Plagiarism.NgramsPlagiarism(env, text, original, Plagiarism.DefaultN);
      k >= 1 && p.Failure? ==> Evaluate(env, text, original, synalepha, permissive, threshold) == Failure(p.fault)
    ensures var k, p := |Terzine.Terzine(text)|, Plagiarism.NgramsPlagiarism(env, text, original, Plagiarism.DefaultN);
      var q := Repetitivity.NgramsRepetitivity(env, text, Repetitivity.DefaultN);
      k >= 1 && p.Success? && q.Failure? ==> Evaluate(env, text, original, synalepha, permissive, threshold) == Failure(q.fault)
    ensures var k, p := |Terzine.Terzine(text)|, Plagiarism.NgramsPlagiarism(env, text, original, Plagiarism.DefaultN);
      var q := Repetitivity.NgramsRepetitivity(env, text, Repetitivity.DefaultN);
      k == 1 && p.Success? && q.Success? ==> Evaluate(env, text, original, synalepha, permissive, threshold) == Failure(ZeroDivisionError)
    ensures var k, p := |Terzine.Terzine(text)|, Plagiarism.NgramsPlagiarism(env, text, original, Plagiarism.DefaultN);
      var q := Repetitivity.NgramsRepetitivity(env, text, Repetitivity.DefaultN);
      Evaluate(env, text, original, synalepha, permissive, threshold).Success? <==> k >= 2 && p.Success? && q.Success?
  {
    if |Terzine.Terzine(text)| >= 1 {
      WindowSums(env, text, synalepha, permissive, threshold);
    }
  }

  /** The entries when `evaluate` succeeds: the two counts, a meter average below 1 (the first
      window is never scored), a rhyme average in [0, 1] and the two n-gram scores; the ratio and
      the exact meter bound are those of `AggregateScores`. */
  lemma {:induction false} EvaluateScores(env: Env, text: string, original: string, synalepha: bool, permissive: bool, threshold: real)
    requires Evaluate(env, text, original, synalepha, permissive, threshold).Success?
    ensures var s := Evaluate(env, text, original, synalepha, permissive, threshold).value;
      s.putativeTercets == (|Split(text, '\n')| - 1) / 4 && s.wellFormedTercets == |Terzine.Terzine(text)|
    ensures var s := Evaluate(env, text, original, synalepha, permissive, threshold).value;
      s.hendecasyllabicness < 1.0 && 0.0 <= s.rhymeness <= 1.0
    ensures var s := Evaluate(env, text, original, synalepha, permissive, threshold).value;
      Plagiarism.NgramsPlagiarism(env, text, original, Plagiarism.DefaultN) == Success(s.plagiarism) &&
      Repetitivity.NgramsRepetitivity(env, text, Repetitivity.DefaultN) == Success(s.repetitivity)
  {
    var ws := Terzine.Terzine(text);
    WindowSums(env, text, synalepha, permissive, threshold);
    var sums := Sums(Meters(env, synalepha, permissive), Rhymes(env, threshold), ws, |ws|);
    var p := Plagiarism.NgramsPlagiarism(env, text, original, Plagiarism.DefaultN);
    var q := Repetitivity.NgramsRepetitivity(env, text, Repetitivity.DefaultN);
    assert Evaluate(env, text, original, synalepha, permissive, threshold) == Aggregate(text, |ws|, sums, p, q);
    AggregateScores(text, |ws|, sums, p, q);
  }

  /** The entries of a successful aggregation, given the bounds on the two sums. */
  lemma {:induction false} AggregateScores(text: string, k: int, sums: Result<(real, real)>, plagiarism: Result<real>, repetitivity: Result<real>)
    requires k >= 1 && Aggregate(text, k, sums, plagiarism, repetitivity).Success?
    requires sums.Success? && sums.value.0 <= (k - 1) as real && 0.0 <= sums.value.1 <= (k - 1) as real
    ensures var s, pieces := Aggregate(text, k, sums, plagiarism, repetitivity).value, |Split(text, '\n')|;
      s.putativeTercets == (pieces - 1) / 4 && s.wellFormedTercets == k &&
      s.structuredness == (4 * k + 2) as real / pieces as real
    ensures var s := Aggregate(text, k, sums, plagiarism, repetitivity).value;
      s.hendecasyllabicness <= (k - 1) as real / k as real < 1.0 && 0.0 <= s.rhymeness <= 1.0
    ensures var s, pieces := Aggregate(text, k, sums, plagiarism, repetitivity).value, |Split(text, '\n')|;
      s.structuredness == 1.0 <==> pieces == 4 * k + 2
    ensures var s := Aggregate(text, k, sums, plagiarism, repetitivity).value;
      s.hendecasyllabicness == sums.value.0 / k as real && s.rhymeness == sums.value.1 / (k - 1) as real
    ensures var s := Aggregate(text, k, sums, plagiarism, repetitivity).value;
      plagiarism == Success(s.plagiarism) && repetitivity == Success(s.repetitivity)
  {
    AverageBounds(sums.value.0, sums.value.1, k);
    RatioOne((4 * k + 2) as real, |Split(text, '\n')| as real);
  }

  /** A ratio with a positive denominator is 1 exactly when the two are equal. */
  lemma {:induction false} RatioOne(a: real, b: real)
    requires b > 0.0
    ensures a / b == 1.0 <==> a == b
  {
    if a / b == 1.0 {
      assert a == (a / b) * b;
    }
  }

  /** A sum of at most `k - 1` divided by `k` stays below 1. */
  lemma {:induction false} MeanBelowOne(sum: real, k: int)
    requires k >= 1
    ensures sum <= (k - 1) as real ==> sum / k as real < 1.0
  {
    if sum <= (k - 1) as real {
      assert (sum / k as real) * k as real == sum;
    }
  }

  /** A sum between 0 and `n` divided by `n` lies in `[0, 1]`. */
  lemma {:induction false} MeanInUnit(sum: real, n: int)
    requires n >= 1
    ensures 0.0 <= sum <= n as real ==> 0.0 <= sum / n as real <= 1.0
  {
    if 0.0 <= sum <= n as real {
      assert (sum / n as real) * n as real == sum;
    }
  }

  /** Dividing the two sums by the window counts keeps their bounds. */
  lemma {:induction false} AverageBounds(meterSum: real, rhymeSum: real, k: int)
    requires k >= 2 && meterSum <= (k - 1) as real && 0.0 <= rhymeSum <= (k - 1) as real
    ensures meterSum / k as real <= (k - 1) as real / k as real < 1.0
    ensures 0.0 <= rhymeSum / (k - 1) as real <= 1.0
  {
  }
}
