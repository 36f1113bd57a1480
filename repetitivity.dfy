/** `ngrams_repetitivity`: the share of the text's n-grams that do not occur again elsewhere in
    the text. */
module Repetitivity {
  import opened Builtins
  import opened Externals
  import opened Ngrams

  /** The n-gram length used when the caller gives none. */
  const DefaultN: int := 4

  /** The lower-cased text, tokenized. */
  function Tokens(env: Env, text: string): seq<string>
  {
    env.tokenize(env.lower(text))
  }

  /** The text an n-gram is searched in: the tokens before it, a space, the tokens after it. */
  function Remaining(env: Env, tokens: seq<string>, i: int, n: int): string
  {
    env.join(Slice(tokens, 0, i)) + " " + env.join(Slice(tokens, i + n, |tokens|))
  }

  /** The n-gram at `i` occurs in the rest of the text. */
  predicate Repeated(env: Env, tokens: seq<string>, i: int, n: int)
  {
    Contains(Remaining(env, tokens, i, n), Ngram(env, tokens, i, n))
  }

  /** The positions whose n-gram is repeated. */
  function Repeats(env: Env, tokens: seq<string>, n: int): int -> bool
  {
    i => Repeated(env, tokens, i, n)
  }

  /** The value `ngrams_repetitivity(text, n)` returns, or the exception it raises. */
  function NgramsRepetitivity(env: Env, text: string, n: int): Result<real>
  {
    var tokens := Tokens(env, text);
    var total := Total(tokens, n);
    Score(Count(Repeats(env, tokens, n), total), total)
  }

  /** `ngrams_repetitivity`: one pass over the n-grams, counting the repeated ones. */
  method ComputeRepetitivity(env: Env, text: string, n: int) returns (r: Result<real>)
    ensures r == NgramsRepetitivity(env, text, n)
  {
    var tokens := env.tokenize(env.lower(text));
    var total := |tokens| - n + 1;
    var counter := 0;
    var i := 0;
    while i < total
      invariant total > 0 ==> 0 <= i <= total
      invariant total <= 0 ==> i == 0
      invariant counter == Count(Repeats(env, tokens, n), i)
    {
      var ngram := env.join(Slice(tokens, i, i + n));
      var remaining := env.join(Slice(tokens, 0, i)) + " " + env.join(Slice(tokens, i + n, |tokens|));
      counter := counter + if Contains(remaining, ngram) then 1 else 0;
      i := i + 1;
    }
    if total == 0 {
      r := Failure(ZeroDivisionError);
    } else {
      r := Success(1.0 - counter as real / total as real);
    }
  }

  /** With at least one n-gram the result lies in `[0, 1]`; it is 1 exactly when no n-gram
      occurs in its remaining text, and 0 exactly when every one does. */
  lemma {:induction false} RepetitivityRange(env: Env, text: string, n: int)
    requires Total(Tokens(env, text), n) > 0
    ensures NgramsRepetitivity(env, text, n).Success?
    ensures 0.0 <= NgramsRepetitivity(env, text, n).value <= 1.0
    ensures NgramsRepetitivity(env, text, n).value == 1.0 <==>
      forall i :: 0 <= i < Total(Tokens(env, text), n) ==> !Repeated(env, Tokens(env, text), i, n)
    ensures NgramsRepetitivity(env, text, n).value == 0.0 <==>
      forall i :: 0 <= i < Total(Tokens(env, text), n) ==> Repeated(env, Tokens(env, text), i, n)
  {
    var tokens := Tokens(env, text);
    var total := Total(tokens, n);
    var hit := Repeats(env, tokens, n);
    forall i ensures hit(i) == Repeated(env, tokens, i, n) {
    }
    CountBounds(hit, total);
    CountNone(hit, total);
    CountAll(hit, total);
    ScoreRange(Count(hit, total), total);
  }

  /** With exactly `n - 1` tokens there is no n-gram and the division fails; with fewer the
      loop does not run and the result is 1. */
  lemma {:induction false} RepetitivityEdges(env: Env, text: string, n: int)
    ensures NgramsRepetitivity(env, text, n) == Failure(ZeroDivisionError) <==> |Tokens(env, text)| == n - 1
    ensures |Tokens(env, text)| < n - 1 ==> NgramsRepetitivity(env, text, n) == Success(1.0)
  {
    var tokens := Tokens(env, text);
    var total := Total(tokens, n);
    if total < 0 {
      ScoreEmpty(total);
    }
  }

  /** The n-gram at `i` is left out of the text it is searched in: the tokens before it, its
      own tokens and the tokens after it make up the whole token list. */
  lemma {:induction false} RemainingExcludesNgram(tokens: seq<string>, i: int, n: int)
    requires n >= 0 && 0 <= i < Total(tokens, n)
    ensures Slice(tokens, 0, i) + Slice(tokens, i, i + n) + Slice(tokens, i + n, |tokens|) == tokens
  {
    assert tokens[..i] + tokens[i..i + n] + tokens[i + n..] == tokens;
  }
}
