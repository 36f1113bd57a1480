/** What the two n-gram scorers share: the window of `n` tokens starting at `i`, the number
    of windows a test accepts, and the final ratio `1 - count / total`. */
module Ngrams {
  import opened Builtins
  import opened Externals

  /** The number of n-grams `range(len(tokens) - n + 1)` visits; negative when there are
      fewer than `n - 1` tokens, and then the loop does not run. */
  function Total<T>(tokens: seq<T>, n: int): int
  {
    |tokens| - n + 1
  }

  /** `tokenizer.join(tokens[i:i+n])`. */
  function Ngram(env: Env, tokens: seq<string>, i: int, n: int): string
  {
    env.join(Slice(tokens, i, i + n))
  }

  /** How many of the positions `0 .. k-1` the test `hit` accepts; 0 when `k` is not positive,
      as `range(k)` is then empty. */
  function Count(hit: int -> bool, k: int): int
    decreases if k > 0 then k else 0
  {
    if k <= 0 then 0 else Count(hit, k - 1) + (if hit(k - 1) then 1 else 0)
  }

  /** `1 - (count / total)`, which raises `ZeroDivisionError` when `total` is 0. */
  function Score(count: int, total: int): Result<real>
  {
    if total == 0 then Failure(ZeroDivisionError) else Success(1.0 - count as real / total as real)
  }

  /** The count lies between 0 and the number of positions. */
  lemma {:induction false} CountBounds(hit: int -> bool, k: int)
    ensures 0 <= Count(hit, k) <= if k > 0 then k else 0
    decreases if k > 0 then k else 0
  {
    if k > 0 {
      CountBounds(hit, k - 1);
    }
  }

  /** The count is 0 exactly when no position is accepted. */
  lemma {:induction false} CountNone(hit: int -> bool, k: int)
    ensures Count(hit, k) == 0 <==> forall i :: 0 <= i < k ==> !hit(i)
    decreases if k > 0 then k else 0
  {
    if k > 0 {
      CountNone(hit, k - 1);
      CountBounds(hit, k - 1);
    }
  }

  /** The count equals the number of positions exactly when every position is accepted. */
  lemma {:induction false} CountAll(hit: int -> bool, k: int)
    requires k >= 0
    ensures Count(hit, k) == k <==> forall i :: 0 <= i < k ==> hit(i)
    decreases k
  {
    if k > 0 {
      CountAll(hit, k - 1);
      CountBounds(hit, k - 1);
    }
  }

  /** The ratio with a count between 0 and a positive total lies in `[0, 1]`; it is 1 exactly
      when nothing was counted and 0 exactly when everything was. */
  lemma {:induction false} ScoreRange(count: int, total: int)
    requires 0 <= count <= total && total > 0
    ensures Score(count, total).Success?
    ensures 0.0 <= Score(count, total).value <= 1.0
    ensures Score(count, total).value == 1.0 <==> count == 0
    ensures Score(count, total).value == 0.0 <==> count == total
  {
    var q := count as real / total as real;
    assert q * total as real == count as real;
    assert 0.0 <= q <= 1.0;
  }

  /** With a non-positive count and a negative total the ratio is 1 (Python's `1 - (-0.0)`). */
  lemma {:induction false} ScoreEmpty(total: int)
    requires total < 0
    ensures Score(0, total) == Success(1.0)
  {
  }
}
