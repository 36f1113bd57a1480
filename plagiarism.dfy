/** `ngrams_plagiarism`: the share of the generated text's n-grams that do not occur in the
    original text. */
module Plagiarism {
  import opened Builtins
  import opened Externals
  import opened Ngrams

  /** The n-gram length used when the caller gives none. */
  const DefaultN: int := 4

  /** The original text as it is searched: lower-cased, tokenized and joined again. */
  function Reference(env: Env, original: string): string
  {
    env.join(env.tokenize(env.lower(original)))
  }

  /** The lower-cased generated text, tokenized. */
  function GeneratedTokens(env: Env, generated: string): seq<string>
  {
    env.tokenize(env.lower(generated))
  }

  /** The generated n-gram at `i` occurs in the original. */
  predicate Copied(env: Env, reference: string, tokens: seq<string>, i: int, n: int)
  {
    Contains(reference, Ngram(env, tokens, i, n))
  }

  /** The positions whose n-gram is copied. */
  function Copies(env: Env, reference: string, tokens: seq<string>, n: int): int -> bool
  {
    i => Copied(env, reference, tokens, i, n)
  }

  /** The value `ngrams_plagiarism(generated, original, n)` returns, or the exception it raises. */
  function NgramsPlagiarism(env: Env, generated: string, original: string, n: int): Result<real>
  {
    var tokens := GeneratedTokens(env, generated);
    var total := Total(tokens, n);
    Score(Count(Copies(env, Reference(env, original), tokens, n), total), total)
  }

  /** `ngrams_plagiarism`: the original is prepared once, then one pass over the generated
      n-grams counts those found in it. */
  method ComputePlagiarism(env: Env, generated: string, original: string, n: int) returns (r: Result<real>)
    ensures r == NgramsPlagiarism(env, generated, original, n)
  {
    var reference := env.join(env.tokenize(env.lower(original)));
    var tokens := env.tokenize(env.lower(generated));
    var total := |tokens| - n + 1;
    var counter := 0;
    var i := 0;
    while i < total
      invariant total > 0 ==> 0 <= i <= total
      invariant total <= 0 ==> i == 0
      invariant counter == Count(Copies(env, reference, tokens, n), i)
    {
      var ngram := env.join(Slice(tokens, i, i + n));
      counter := counter + if Contains(reference, ngram) then 1 else 0;
      i := i + 1;
    }
    if total == 0 {
      r := Failure(ZeroDivisionError);
    } else {
      r := Success(1.0 - counter as real / total as real);
    }
  }

  /** With at least one generated n-gram the result lies in `[0, 1]`; it is 1 exactly when no
      n-gram occurs in the original, and 0 exactly when every one does. */
  lemma {:induction false} PlagiarismRange(env: Env, generated: string, original: string, n: int)
    requires Total(GeneratedTokens(env, generated), n) > 0
    ensures NgramsPlagiarism(env, generated, original, n).Success?
    ensures 0.0 <= NgramsPlagiarism(env, generated, original, n).value <= 1.0
    ensures NgramsPlagiarism(env, generated, original, n).value == 1.0 <==>
      forall i :: 0 <= i < Total(GeneratedTokens(env, generated), n) ==>
        !Copied(env, Reference(env, original), GeneratedTokens(env, generated), i, n)
    ensures NgramsPlagiarism(env, generated, original, n).value == 0.0 <==>
      forall i :: 0 <= i < Total(GeneratedTokens(env, generated), n) ==>
        Copied(env, Reference(env, original), GeneratedTokens(env, generated), i, n)
  {
    var tokens := GeneratedTokens(env, generated);
    var reference := Reference(env, original);
    var total := Total(tokens, n);
    var hit := Copies(env, reference, tokens, n);
    forall i ensures hit(i) == Copied(env, reference, tokens, i, n) {
    }
    CountBounds(hit, total);
    CountNone(hit, total);
    CountAll(hit, total);
    ScoreRange(Count(hit, total), total);
  }

  /** With exactly `n - 1` generated tokens the division fails; with fewer the result is 1. */
  lemma {:induction false} PlagiarismEdges(env: Env, generated: string, original: string, n: int)
    ensures NgramsPlagiarism(env, generated, original, n) == Failure(ZeroDivisionError) <==>
      |GeneratedTokens(env, generated)| == n - 1
    ensures |GeneratedTokens(env, generated)| < n - 1 ==> NgramsPlagiarism(env, generated, original, n) == Success(1.0)
  {
    var total := Total(GeneratedTokens(env, generated), n);
    if total < 0 {
      ScoreEmpty(total);
    }
  }

  /** When the tokenizer joins with a separator, a text checked against itself is entirely
      plagiarised: every n-gram's join is a piece of the whole join. */
  lemma {:induction false} PlagiarismOfItself(env: Env, text: string, n: int, sep: char)
    requires forall xs :: env.join(xs) == Join(xs, sep)
    requires n >= 1 && Total(GeneratedTokens(env, text), n) > 0
    ensures NgramsPlagiarism(env, text, text, n) == Success(0.0)
  {
    var tokens := GeneratedTokens(env, text);
    var total := Total(tokens, n);
    forall i | 0 <= i < total
      ensures Copied(env, Reference(env, text), tokens, i, n)
    {
      JoinWindow(tokens, i, i + n, sep);
    }
    PlagiarismRange(env, text, text, n);
  }
}
