/** The parts of Python's built-in string behaviour that the scoring code relies on:
    `str.split` and `str.join` with a one-character separator, the substring test `in`,
    deletion of a class of characters (`re.sub("[...]+", "", s)`), and the two exceptions
    the scorers can raise. */
module Builtins {

  /** The two exceptions the scoring code raises on malformed input. */
  datatype Fault = IndexError | ZeroDivisionError

  datatype Result<+T> = Success(value: T) | Failure(fault: Fault)

  /** `s.split(sep)`: the pieces of `s` between occurrences of `sep`; never empty. */
  function Split(s: string, sep: char): (r: seq<string>)
    ensures |r| >= 1
  {
    var (first, others) := Pieces(s, sep);
    [first] + others
  }

  /** The first piece of `s.split(sep)` and the pieces after it. */
  function Pieces(s: string, sep: char): (string, seq<string>)
    decreases |s|
  {
    if |s| == 0 then ("", [])
    else
      var (first, others) := Pieces(s[1..], sep);
      if s[0] == sep then ("", [first] + others) else ([s[0]] + first, others)
  }

  /** `sep.join(xs)`. */
  function Join(xs: seq<string>, sep: char): string
    decreases |xs|
  {
    if |xs| == 0 then ""
    else if |xs| == 1 then xs[0]
    else xs[0] + [sep] + Join(xs[1..], sep)
  }

  /** Every piece of `xs` is free of the separator. */
  predicate SepFree(xs: seq<string>, sep: char)
  {
    forall k :: 0 <= k < |xs| ==> sep !in xs[k]
  }

  /** `needle in hay` for strings: `needle` occurs contiguously in `hay`. */
  predicate Contains(hay: string, needle: string)
  {
    exists i | 0 <= i <= |hay| - |needle| :: OccursAt(hay, needle, i)
  }

  /** `needle` occurs in `hay` starting at index `i`. */
  predicate OccursAt(hay: string, needle: string, i: int)
  {
    0 <= i <= |hay| - |needle| && hay[i..i + |needle|] == needle
  }

  /** `s` with every character of `drop` deleted and the others kept in order. */
  function Remove(s: string, drop: set<char>): (r: string)
    ensures |r| <= |s|
  {
    if |s| == 0 then ""
    else (if s[0] in drop then "" else [s[0]]) + Remove(s[1..], drop)
  }

  /** Deletion keeps every other character as often as it occurs, and no dropped one. */
  lemma {:induction false} RemoveKeeps(s: string, drop: set<char>)
    ensures forall c :: c in Remove(s, drop) <==> c in s && c !in drop
    ensures forall c :: multiset(Remove(s, drop))[c] == if c in drop then 0 else multiset(s)[c]
    decreases |s|
  {
    if |s| > 0 {
      RemoveKeeps(s[1..], drop);
      assert s == [s[0]] + s[1..];
    }
  }

  /** `s` with every occurrence of `a` turned into `b`. */
  function Replace(s: string, a: char, b: char): (r: string)
    ensures |r| == |s|
    ensures forall i :: 0 <= i < |s| ==> r[i] == if s[i] == a then b else s[i]
  {
    if |s| == 0 then ""
    else [if s[0] == a then b else s[0]] + Replace(s[1..], a, b)
  }

  /** `"".join(xs)`. */
  function Concat(xs: seq<string>): string
  {
    if |xs| == 0 then "" else xs[0] + Concat(xs[1..])
  }

  /** `xs[i:j]` with Python's handling of the bounds. */
  function Slice<T>(xs: seq<T>, i: int, j: int): seq<T>
  {
    var lo := SliceBound(|xs|, i);
    var hi := SliceBound(|xs|, j);
    if lo <= hi then xs[lo..hi] else []
  }

  /** A slice bound as Python normalises it: negative bounds count from the end, and every
      bound is clamped to `0..len`. */
  function SliceBound(len: nat, i: int): (b: nat)
    ensures b <= len
    ensures 0 <= i <= len ==> b == i
  {
    if i < 0 then (if i + len < 0 then 0 else i + len)
    else if i <= len then i else len
  }

  /** The elements of `xs` that are not the empty string, in order. */
  function NonEmpty(xs: seq<string>): (r: seq<string>)
    ensures |r| <= |xs|
    ensures forall k :: 0 <= k < |r| ==> r[k] != "" && r[k] in xs
  {
    if |xs| == 0 then []
    else (if xs[0] == "" then [] else [xs[0]]) + NonEmpty(xs[1..])
  }

  /** `NonEmpty` keeps every non-empty element and drops exactly the empty strings. */
  lemma {:induction false} NonEmptyKeeps(xs: seq<string>)
    ensures forall x :: x in xs && x != "" ==> x in NonEmpty(xs)
    ensures |NonEmpty(xs)| == |xs| - multiset(xs)[""]
    decreases |xs|
  {
    if |xs| > 0 {
      NonEmptyKeeps(xs[1..]);
      assert xs == [xs[0]] + xs[1..];
    }
  }

  // ---------------------------------------------------------------------
  // Split and Join are inverse to each other.

  /** Splitting a string that has a separator between `a` and `b`. */
  lemma {:induction false} SplitAroundSep(a: string, b: string, sep: char)
    ensures Split(a + [sep] + b, sep) == Split(a, sep) + Split(b, sep)
  {
    PiecesAroundSep(a, b, sep);
    var (first, others) := Pieces(a, sep);
    assert [first] + (others + Split(b, sep)) == ([first] + others) + Split(b, sep);
  }

  lemma {:induction false} PiecesAroundSep(a: string, b: string, sep: char)
    ensures Pieces(a + [sep] + b, sep) == (Pieces(a, sep).0, Pieces(a, sep).1 + Split(b, sep))
    decreases |a|
  {
    var s := a + [sep] + b;
    if |a| == 0 {
      assert s[0] == sep && s[1..] == b;
      assert Pieces(s, sep) == ("", Split(b, sep));
      assert Pieces(a, sep).1 + Split(b, sep) == Split(b, sep);
    } else {
      assert s[0] == a[0] && s[1..] == a[1..] + [sep] + b;
      PiecesAroundSep(a[1..], b, sep);
      var (first, others) := Pieces(a[1..], sep);
      assert [first] + (others + Split(b, sep)) == ([first] + others) + Split(b, sep);
    }
  }

  /** Splitting a string given by its first character and the rest. */
  lemma {:induction false} SplitCons(s: string, sep: char)
    requires |s| > 0
    ensures s[0] == sep ==> Split(s, sep) == [""] + Split(s[1..], sep)
    ensures s[0] != sep ==>
      Split(s, sep) == [[s[0]] + Split(s[1..], sep)[0]] + Split(s[1..], sep)[1..]
  {
    var (first, others) := Pieces(s[1..], sep);
    assert Split(s[1..], sep) == [first] + others;
    assert ([first] + others)[1..] == others;
  }

  /** No piece of a split holds the separator. */
  lemma {:induction false} SplitSepFree(s: string, sep: char)
    ensures SepFree(Split(s, sep), sep)
    decreases |s|
  {
    if |s| > 0 {
      SplitSepFree(s[1..], sep);
      SplitCons(s, sep);
      var rest := Split(s[1..], sep);
      if s[0] != sep {
        assert sep !in [s[0]] + rest[0];
        var r := [[s[0]] + rest[0]] + rest[1..];
        forall k | 0 <= k < |r| ensures sep !in r[k] {
          if k > 0 { assert r[k] == rest[k]; }
        }
      } else {
        var r := [""] + rest;
        forall k | 0 <= k < |r| ensures sep !in r[k] {
          if k > 0 { assert r[k] == rest[k - 1]; }
        }
      }
    }
  }

  /** A string without the separator is one piece. */
  lemma {:induction false} SplitNoSep(s: string, sep: char)
    requires sep !in s
    ensures Split(s, sep) == [s]
    decreases |s|
  {
    if |s| > 0 {
      SplitNoSep(s[1..], sep);
      SplitCons(s, sep);
      assert [s[0]] + s[1..] == s;
    }
  }

  /** Joining a first piece and the others. */
  lemma {:induction false} JoinCons(first: string, others: seq<string>, sep: char)
    ensures Join([first] + others, sep) == if |others| == 0 then first else first + [sep] + Join(others, sep)
  {
    assert ([first] + others)[1..] == others;
  }

  /** Concatenating a first piece and the others. */
  lemma {:induction false} ConcatCons(first: string, others: seq<string>)
    ensures Concat([first] + others) == first + Concat(others)
  {
    assert ([first] + others)[1..] == others;
  }

  /** `b.join(s.split(a))` replaces every `a` by `b`: the idiom the syllabifier uses to turn
      its temporary markers into separators. */
  lemma {:induction false} JoinSplitReplaces(s: string, a: char, b: char)
    ensures Join(Split(s, a), b) == Replace(s, a, b)
    decreases |s|
  {
    if |s| > 0 {
      JoinSplitReplaces(s[1..], a, b);
      var (first, others) := Pieces(s[1..], a);
      JoinCons(first, others, b);
      if s[0] == a {
        JoinCons("", [first] + others, b);
      } else {
        JoinCons([s[0]] + first, others, b);
      }
    }
  }

  /** `"".join(s.split(a))` deletes every `a`. */
  lemma {:induction false} ConcatSplitRemoves(s: string, a: char)
    ensures Concat(Split(s, a)) == Remove(s, {a})
    decreases |s|
  {
    if |s| > 0 {
      ConcatSplitRemoves(s[1..], a);
      var (first, others) := Pieces(s[1..], a);
      ConcatCons(first, others);
      if s[0] == a {
        ConcatCons("", [first] + others);
      } else {
        ConcatCons([s[0]] + first, others);
      }
    }
  }

  /** `sep.join(s.split(sep)) == s`. */
  lemma {:induction false} JoinSplit(s: string, sep: char)
    ensures Join(Split(s, sep), sep) == s
  {
    JoinSplitReplaces(s, sep, sep);
    assert Replace(s, sep, sep) == s;
  }

  /** `(sep.join(xs)).split(sep) == xs` when no piece contains the separator. */
  lemma {:induction false} SplitJoin(xs: seq<string>, sep: char)
    requires |xs| >= 1 && SepFree(xs, sep)
    ensures Split(Join(xs, sep), sep) == xs
    decreases |xs|
  {
    SplitNoSep(xs[0], sep);
    if |xs| > 1 {
      SplitJoin(xs[1..], sep);
      SplitAroundSep(xs[0], Join(xs[1..], sep), sep);
      assert [xs[0]] + xs[1..] == xs;
    }
  }

  /** Joining two non-empty runs of pieces puts one separator between them. */
  lemma {:induction false} JoinAppend(xs: seq<string>, ys: seq<string>, sep: char)
    requires |xs| >= 1 && |ys| >= 1
    ensures Join(xs + ys, sep) == Join(xs, sep) + [sep] + Join(ys, sep)
    decreases |xs|
  {
    if |xs| > 1 {
      JoinAppend(xs[1..], ys, sep);
      assert (xs + ys)[1..] == xs[1..] + ys;
    } else {
      assert (xs + ys)[1..] == ys;
    }
  }

  /** Cutting a list of pieces at `k` cuts its join at a separator. */
  lemma {:induction false} JoinCut(xs: seq<string>, k: nat, sep: char)
    requires 0 < k < |xs|
    ensures Join(xs, sep) == Join(xs[..k], sep) + [sep] + Join(xs[k..], sep)
  {
    JoinAppend(xs[..k], xs[k..], sep);
    assert xs[..k] + xs[k..] == xs;
  }

  // ---------------------------------------------------------------------
  // The substring test.

  lemma {:induction false} ContainsMiddle(p: string, a: string, q: string)
    ensures Contains(p + a + q, a)
  {
    var hay := p + a + q;
    assert OccursAt(hay, a, |p|);
  }

  lemma {:induction false} ContainsTrans(a: string, b: string, c: string)
    requires Contains(b, a) && Contains(c, b)
    ensures Contains(c, a)
  {
    var i :| 0 <= i <= |b| - |a| && OccursAt(b, a, i);
    var j :| 0 <= j <= |c| - |b| && OccursAt(c, b, j);
    assert b[i..i + |a|] == a;
    assert c[j..j + |b|] == b;
    forall k | 0 <= k < |a| ensures c[j + i + k] == a[k] {
      assert c[j + i + k] == c[j..j + |b|][i + k] == b[i + k] == b[i..i + |a|][k];
    }
    assert c[j + i..j + i + |a|] == a;
    assert OccursAt(c, a, j + i);
  }

  /** The join of a window of pieces occurs in the join of all of them. */
  lemma {:induction false} JoinWindow(xs: seq<string>, i: int, j: int, sep: char)
    requires 0 <= i < j <= |xs|
    ensures Contains(Join(xs, sep), Join(xs[i..j], sep))
  {
    JoinPrefix(xs[i..], j - i, sep);
    assert xs[i..][..j - i] == xs[i..j];
    JoinSuffix(xs, i, sep);
    ContainsTrans(Join(xs[i..j], sep), Join(xs[i..], sep), Join(xs, sep));
  }

  lemma {:induction false} JoinPrefix(xs: seq<string>, j: int, sep: char)
    requires 0 < j <= |xs|
    ensures Contains(Join(xs, sep), Join(xs[..j], sep))
  {
    if j < |xs| {
      JoinCut(xs, j, sep);
      ContainsMiddle("", Join(xs[..j], sep), [sep] + Join(xs[j..], sep));
      assert "" + Join(xs[..j], sep) + ([sep] + Join(xs[j..], sep)) == Join(xs, sep);
    } else {
      assert xs[..j] == xs;
      ContainsMiddle("", Join(xs, sep), "");
      assert "" + Join(xs, sep) + "" == Join(xs, sep);
    }
  }

  lemma {:induction false} JoinSuffix(xs: seq<string>, i: int, sep: char)
    requires 0 <= i < |xs|
    ensures Contains(Join(xs, sep), Join(xs[i..], sep))
  {
    if i > 0 {
      JoinCut(xs, i, sep);
      ContainsMiddle(Join(xs[..i], sep) + [sep], Join(xs[i..], sep), "");
      assert Join(xs[..i], sep) + [sep] + Join(xs[i..], sep) + "" == Join(xs, sep);
    } else {
      assert xs[i..] == xs;
      ContainsMiddle("", Join(xs, sep), "");
      assert "" + Join(xs, sep) + "" == Join(xs, sep);
    }
  }

  // ---------------------------------------------------------------------
  // Deleting characters.

  /** Deletion distributes over concatenation. */
  lemma {:induction false} RemoveAppend(a: string, b: string, drop: set<char>)
    ensures Remove(a + b, drop) == Remove(a, drop) + Remove(b, drop)
    decreases |a|
  {
    if |a| == 0 {
      assert a + b == b;
    } else {
      var head := if a[0] in drop then "" else [a[0]];
      assert (a + b)[0] == a[0];
      assert (a + b)[1..] == a[1..] + b;
      assert Remove(a + b, drop) == head + Remove(a[1..] + b, drop);
      RemoveAppend(a[1..], b, drop);
      assert Remove(a, drop) == head + Remove(a[1..], drop);
    }
  }

  /** Deletion on one character. */
  lemma {:induction false} RemoveSingle(c: char, drop: set<char>)
    ensures Remove([c], drop) == if c in drop then "" else [c]
  {
    assert [c][1..] == "";
  }

  /** Deleting from a string that has none of the characters changes nothing. */
  lemma {:induction false} RemoveNone(s: string, drop: set<char>)
    requires forall c :: c in drop ==> c !in s
    ensures Remove(s, drop) == s
    decreases |s|
  {
    if |s| > 0 {
      RemoveNone(s[1..], drop);
      assert [s[0]] + s[1..] == s;
    }
  }

  /** Deleting a class of characters and then a second one deletes their union. */
  lemma {:induction false} RemoveRemove(s: string, d1: set<char>, d2: set<char>)
    ensures Remove(Remove(s, d1), d2) == Remove(s, d1 + d2)
    decreases |s|
  {
    if |s| > 0 {
      var head := if s[0] in d1 then "" else [s[0]];
      RemoveAppend(head, Remove(s[1..], d1), d2);
      RemoveRemove(s[1..], d1, d2);
    }
  }

  /** Turning `a` into `b` and deleting `b` deletes both. */
  lemma {:induction false} RemoveReplace(s: string, a: char, b: char)
    ensures Remove(Replace(s, a, b), {b}) == Remove(s, {a, b})
    decreases |s|
  {
    if |s| > 0 {
      RemoveReplace(s[1..], a, b);
      assert Replace(s, a, b)[1..] == Replace(s[1..], a, b);
    }
  }

  /** Deleting the separator from a join deletes it from the concatenation of the pieces. */
  lemma {:induction false} RemoveJoin(xs: seq<string>, sep: char)
    ensures Remove(Join(xs, sep), {sep}) == Remove(Concat(xs), {sep})
    decreases |xs|
  {
    if |xs| > 1 {
      RemoveJoin(xs[1..], sep);
      JoinCons(xs[0], xs[1..], sep);
      ConcatCons(xs[0], xs[1..]);
      assert [xs[0]] + xs[1..] == xs;
      RemoveAppend(xs[0] + [sep], Join(xs[1..], sep), {sep});
      RemoveAppend(xs[0], [sep], {sep});
      RemoveAppend(xs[0], Concat(xs[1..]), {sep});
    } else if |xs| == 1 {
      assert Concat(xs[1..]) == "";
      assert xs[0] + "" == xs[0];
    }
  }

  /** Deleting characters from a concatenation deletes them piece by piece. */
  lemma {:induction false} RemoveConcat(xs: seq<string>, ys: seq<string>, drop: set<char>)
    requires |xs| == |ys|
    requires forall i :: 0 <= i < |xs| ==> Remove(xs[i], drop) == ys[i]
    ensures Remove(Concat(xs), drop) == Concat(ys)
    decreases |xs|
  {
    if |xs| > 0 {
      RemoveConcat(xs[1..], ys[1..], drop);
      RemoveAppend(xs[0], Concat(xs[1..]), drop);
    }
  }

  /** Every character of a piece occurs in the concatenation. */
  lemma {:induction false} InConcat(xs: seq<string>, i: nat, c: char)
    requires i < |xs| && c in xs[i]
    ensures c in Concat(xs)
    decreases i
  {
    if i > 0 {
      InConcat(xs[1..], i - 1, c);
    }
  }

  /** A suffix of pieces free of the separator is free of it too. */
  lemma {:induction false} SepFreeDrop(xs: seq<string>, i: int, sep: char)
    requires 0 <= i <= |xs| && SepFree(xs, sep)
    ensures SepFree(xs[i..], sep)
  {
    forall k | 0 <= k < |xs| - i ensures sep !in xs[i..][k] {
      assert xs[i..][k] == xs[i + k];
    }
  }

  /** An empty piece in front keeps the pieces free of the separator. */
  lemma {:induction false} SepFreePad(xs: seq<string>, sep: char)
    requires SepFree(xs, sep)
    ensures SepFree([""] + xs, sep)
  {
    forall k | 0 <= k < |xs| + 1 ensures sep !in ([""] + xs)[k] {
      if k > 0 { assert ([""] + xs)[k] == xs[k - 1]; }
    }
  }

  /** An empty piece put back in front of a suffix still joins to a piece of the whole: the
      separator before the suffix stands for it. */
  lemma {:induction false} PadContained(xs: seq<string>, t: int, sep: char)
    requires 0 < t <= |xs|
    ensures Contains(Join(xs, sep), Join([""] + xs[t..], sep))
  {
    var rest := [""] + xs[t..];
    if t < |xs| {
      JoinCons("", xs[t..], sep);
      assert Join(rest, sep) == [sep] + Join(xs[t..], sep);
      JoinCut(xs, t, sep);
      ContainsMiddle(Join(xs[..t], sep), Join(rest, sep), "");
      assert Join(xs[..t], sep) + Join(rest, sep) + "" == Join(xs, sep);
    } else {
      assert rest == [""];
      assert OccursAt(Join(xs, sep), Join(rest, sep), 0);
    }
  }

  /** `"".join` distributes over list concatenation. */
  lemma {:induction false} ConcatAppend(xs: seq<string>, ys: seq<string>)
    ensures Concat(xs + ys) == Concat(xs) + Concat(ys)
    decreases |xs|
  {
    if |xs| > 0 {
      ConcatAppend(xs[1..], ys);
      assert (xs + ys)[1..] == xs[1..] + ys;
    } else {
      assert xs + ys == ys;
    }
  }

  /** Keeping the non-empty strings distributes over list concatenation. */
  lemma {:induction false} NonEmptyAppend(xs: seq<string>, ys: seq<string>)
    ensures NonEmpty(xs + ys) == NonEmpty(xs) + NonEmpty(ys)
    decreases |xs|
  {
    if |xs| > 0 {
      NonEmptyAppend(xs[1..], ys);
      assert (xs + ys)[1..] == xs[1..] + ys;
    } else {
      assert xs + ys == ys;
    }
  }

  /** Gluing two runs of pieces where the first has at least two: its first piece stays. */
  lemma {:induction false} GluedCons(xs: seq<string>, ys: seq<string>)
    requires |xs| >= 2 && |ys| >= 1
    ensures xs[..|xs| - 1] + [xs[|xs| - 1] + ys[0]] + ys[1..]
      == [xs[0]] + (xs[1..][..|xs| - 2] + [xs[1..][|xs| - 2] + ys[0]] + ys[1..])
  {
    assert xs[..|xs| - 1] == [xs[0]] + xs[1..][..|xs| - 2];
    assert xs[1..][|xs| - 2] == xs[|xs| - 1];
  }

  /** Joining two runs of pieces and concatenating the results glues the last piece of the
      first run to the first piece of the second. */
  lemma {:induction false} JoinGlue(xs: seq<string>, ys: seq<string>, sep: char)
    requires |xs| >= 1 && |ys| >= 1
    ensures Join(xs, sep) + Join(ys, sep) == Join(xs[..|xs| - 1] + [xs[|xs| - 1] + ys[0]] + ys[1..], sep)
    decreases |xs|
  {
    if |xs| == 1 {
      assert xs[..|xs| - 1] + [xs[|xs| - 1] + ys[0]] + ys[1..] == [xs[0] + ys[0]] + ys[1..];
      JoinCons(xs[0] + ys[0], ys[1..], sep);
      JoinCons(ys[0], ys[1..], sep);
      assert [ys[0]] + ys[1..] == ys;
    } else {
      var tail := xs[1..];
      JoinGlue(tail, ys, sep);
      GluedCons(xs, ys);
      JoinGlueStep(xs[0], tail, ys, tail[..|tail| - 1] + [tail[|tail| - 1] + ys[0]] + ys[1..], sep);
      assert [xs[0]] + tail == xs;
    }
  }

  /** One step of JoinGlue: a first piece put in front of both sides. */
  lemma {:induction false} JoinGlueStep(first: string, tail: seq<string>, ys: seq<string>, rest: seq<string>, sep: char)
    requires |tail| >= 1 && |rest| >= 1
    requires Join(tail, sep) + Join(ys, sep) == Join(rest, sep)
    ensures Join([first] + tail, sep) + Join(ys, sep) == Join([first] + rest, sep)
  {
    JoinCons(first, rest, sep);
    JoinCons(first, tail, sep);
  }

  /** The verses from piece `k` on: piece `k`, if it is not blank, then those from `k + 1` on. */
  lemma {:induction false} NonEmptyFrom(xs: seq<string>, k: int)
    requires 0 <= k < |xs|
    ensures |NonEmpty(xs[k..])| == (if xs[k] == "" then 0 else 1) + |NonEmpty(xs[k + 1..])|
  {
    assert xs[k..][1..] == xs[k + 1..];
  }

  /** The pieces of `a` followed by the pieces of `b` after its first: the last piece of `a`
      and the second of `b` are glued into one. */
  lemma {:induction false} SplitGlue(a: string, b: string, sep: char)
    requires |Split(b, sep)| >= 2
    ensures var xs, ys := Split(a, sep), Split(b, sep)[1..];
      Split(a + Join(ys, sep), sep) == xs[..|xs| - 1] + [xs[|xs| - 1] + ys[0]] + ys[1..]
  {
    var xs, ys := Split(a, sep), Split(b, sep)[1..];
    JoinSplit(a, sep);
    JoinGlue(xs, ys, sep);
    var zs := xs[..|xs| - 1] + [xs[|xs| - 1] + ys[0]] + ys[1..];
    SplitSepFree(a, sep);
    SplitSepFree(b, sep);
    assert SepFree(zs, sep) by {
      forall k | 0 <= k < |zs| ensures sep !in zs[k] {
        if k == |xs| - 1 {
          assert zs[k] == xs[|xs| - 1] + ys[0];
        } else if k < |xs| - 1 {
          assert zs[k] == xs[k];
        } else {
          assert zs[k] == Split(b, sep)[k - |xs| + 2];
        }
      }
    }
    SplitJoin(zs, sep);
  }

  /** Inserting a dropped character after the first `n` characters, and replacing the rest by a
      text with the same remainder, leaves the remainder unchanged. */
  lemma {:induction false} RemoveInsert(s: string, n: int, c: char, tail: string, drop: set<char>)
    requires 0 <= n <= |s| && c in drop && Remove(tail, drop) == Remove(s[n..], drop)
    ensures Remove(s[..n] + [c] + tail, drop) == Remove(s, drop)
  {
    RemoveAppend(s[..n] + [c], tail, drop);
    RemoveAppend(s[..n], [c], drop);
    RemoveAppend(s[..n], s[n..], drop);
    assert s[..n] + s[n..] == s;
  }

  /** Keeping the first character and replacing the rest by a text with the same remainder
      leaves the remainder unchanged. */
  lemma {:induction false} RemoveKeepFirst(s: string, tail: string, drop: set<char>)
    requires |s| > 0 && Remove(tail, drop) == Remove(s[1..], drop)
    ensures Remove([s[0]] + tail, drop) == Remove(s, drop)
  {
    assert ([s[0]] + tail)[1..] == tail;
  }

  /** A kept character followed by a dropped one. */
  lemma {:induction false} RemoveSkipSecond(c: char, d: char, tail: string, drop: set<char>)
    requires c !in drop && d in drop
    ensures Remove([c] + ([d] + tail), drop) == [c] + Remove(tail, drop)
  {
    assert ([c] + ([d] + tail))[1..] == [d] + tail;
    assert ([d] + tail)[1..] == tail;
  }

  /** Replacing in a text that starts with `c`. */
  lemma {:induction false} ReplaceCons(c: char, rest: string, a: char, b: char)
    ensures Replace([c] + rest, a, b) == [if c == a then b else c] + Replace(rest, a, b)
  {
    assert ([c] + rest)[1..] == rest;
  }

  /** Replacing `a` by `b` in a character other than `a`, maybe followed by an `a`, then a text. */
  lemma {:induction false} ReplaceGlue(c: char, marked: bool, rest: string, a: char, b: char)
    requires c != a
    ensures Replace([c] + (if marked then [a] else []) + rest, a, b) == [c] + (if marked then [b] else []) + Replace(rest, a, b)
  {
    if marked {
      assert [c] + [a] + rest == [c] + ([a] + rest);
      ReplaceCons(c, [a] + rest, a, b);
      ReplaceCons(a, rest, a, b);
    } else {
      assert [c] + [] + rest == [c] + rest;
      ReplaceCons(c, rest, a, b);
    }
  }
}
