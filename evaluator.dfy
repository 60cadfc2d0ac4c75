/**
 * Scoring a five-letter guess against the target word (`test_guess`): exact
 * matches first, each using up one copy of its letter from a working copy of
 * the target; then, left to right, a letter is in the wrong place only while
 * an unused copy of it is left. Along the way the keyboard hints are raised.
 */
module Evaluator {
  import opened Text
  import opened Statuses
  import opened Hints

  /** Index of the first occurrence of `c` in `s`. */
  function IndexOf(s: string, c: char): (i: nat)
    requires c in s
    ensures i < |s| && s[i] == c
    ensures forall j :: 0 <= j < i ==> s[j] != c
  {
    if s[0] == c then 0 else IndexOf(s[1..], c) + 1
  }

  /** `s.replace(c, "", 1)`: `s` without its first `c`, or `s` itself when it has none. */
  function RemoveFirst(s: string, c: char): (r: string)
    ensures c !in s ==> r == s
    ensures multiset(r) == multiset(s) - multiset{c}
  {
    if |s| == 0 then s
    else if s[0] == c then
      assert s == [c] + s[1..];
      s[1..]
    else
      assert s == [s[0]] + s[1..];
      [s[0]] + RemoveFirst(s[1..], c)
  }

  /** The removal takes out the first occurrence and keeps everything else in order. */
  lemma {:induction false} RemoveFirstSplits(s: string, c: char)
    requires c in s
    ensures RemoveFirst(s, c) == s[..IndexOf(s, c)] + s[IndexOf(s, c) + 1..]
  {
    if s[0] != c {
      var t := s[1..];
      assert c in t;
      RemoveFirstSplits(t, c);
      ConsSplit(s[0], t, IndexOf(t, c));
      assert s == [s[0]] + t;
    }
  }

  /** Cutting position `j` out of a tail is cutting position `j + 1` out of the whole. */
  lemma ConsSplit(x: char, t: string, j: nat)
    requires j < |t|
    ensures [x] + (t[..j] + t[j + 1..]) == ([x] + t)[..j + 1] + ([x] + t)[j + 2..]
  {
    assert ([x] + t)[..j + 1] == [x] + t[..j];
    assert ([x] + t)[j + 2..] == t[j + 1..];
  }

  /** The working state of `test_guess`: `statuses`, `temp_word`, `correct_letters` and `letters`. */
  datatype Progress = Progress(statuses: seq<Status>, pool: string, correct: nat, hints: map<char, Status>)

  /** What `test_guess` needs of its lower-cased guess, its target and the hint map. */
  predicate Scorable(g: string, w: string, h: map<char, Status>)
  {
    |g| == 5 && |w| == 5 && forall i :: 0 <= i < 5 ==> Upper(g[i]) in h
  }

  /** A working state that fits the guess and the target. */
  predicate Fits(g: string, w: string, p: Progress)
  {
    Scorable(g, w, p.hints) && |p.statuses| == 5
  }

  /** The state before either loop. */
  function Start(w: string, h: map<char, Status>): Progress
  {
    Progress(seq(5, _ => NotTested), w, 0, h)
  }

  /** One round `i` of the exact-match loop. */
  function ExactStep(g: string, w: string, p: Progress, i: nat): (q: Progress)
    requires Fits(g, w, p) && i < 5
    ensures Fits(g, w, q) && q.hints.Keys == p.hints.Keys
  {
    if g[i] == w[i] then
      Progress(p.statuses[i := Correct], RemoveFirst(p.pool, w[i]), p.correct + 1,
               p.hints[Upper(g[i]) := Correct])
    else p
  }

  /** The hint update for a letter found absent: only an untested or absent hint becomes Incorrect. */
  function MarkIncorrect(h: map<char, Status>, key: char): (r: map<char, Status>)
    requires key in h
    ensures r.Keys == h.Keys
  {
    if h[key] != Correct && h[key] != WrongPlace then h[key := Incorrect] else h
  }

  /** One round `i` of the placement loop. */
  function PlaceStep(g: string, w: string, p: Progress, i: nat): (q: Progress)
    requires Fits(g, w, p) && i < 5
    ensures Fits(g, w, q) && q.hints.Keys == p.hints.Keys
  {
    var key := Upper(g[i]);
    if multiset(w)[g[i]] > 0 then
      if p.statuses[i] != Correct then
        if g[i] in p.pool then
          Progress(p.statuses[i := WrongPlace], RemoveFirst(p.pool, g[i]), p.correct,
                   if p.hints[key] != Correct then p.hints[key := WrongPlace] else p.hints)
        else
          Progress(p.statuses[i := Incorrect], p.pool, p.correct, MarkIncorrect(p.hints, key))
      else p
    else
      Progress(p.statuses[i := Incorrect], p.pool, p.correct, MarkIncorrect(p.hints, key))
  }

  /** The state after the first `k` rounds of the exact-match loop. */
  function ExactPass(g: string, w: string, h: map<char, Status>, k: nat): (p: Progress)
    requires Scorable(g, w, h) && k <= 5
    ensures Fits(g, w, p) && p.hints.Keys == h.Keys
  {
    if k == 0 then Start(w, h) else ExactStep(g, w, ExactPass(g, w, h, k - 1), k - 1)
  }

  /** The state after the exact-match loop and the first `k` rounds of the placement loop. */
  function PlacePass(g: string, w: string, h: map<char, Status>, k: nat): (p: Progress)
    requires Scorable(g, w, h) && k <= 5
    ensures Fits(g, w, p) && p.hints.Keys == h.Keys
  {
    if k == 0 then ExactPass(g, w, h, 5) else PlaceStep(g, w, PlacePass(g, w, h, k - 1), k - 1)
  }

  /** `test_guess(guess, word)` with the hint map `h` before the call. */
  function Evaluate(guess: string, word: string, h: map<char, Status>): (p: Progress)
    requires Scorable(LowerStr(guess), word, h)
    ensures |p.statuses| == 5 && p.hints.Keys == h.Keys
  {
    PlacePass(LowerStr(guess), word, h, 5)
  }

  // ---------------------------------------------------------------------------
  // A closed-form reference for the statuses
  // ---------------------------------------------------------------------------

  /** The target letters matched exactly among the first `n` positions. */
  function ExactLetters(g: string, w: string, n: nat): multiset<char>
    requires n <= |g| && n <= |w|
  {
    if n == 0 then multiset{}
    else ExactLetters(g, w, n - 1) + if g[n - 1] == w[n - 1] then multiset{w[n - 1]} else multiset{}
  }

  /** The guess letters not matched exactly among the first `n` positions. */
  function Misses(g: string, w: string, n: nat): multiset<char>
    requires n <= |g| && n <= |w|
  {
    if n == 0 then multiset{}
    else Misses(g, w, n - 1) + if g[n - 1] != w[n - 1] then multiset{g[n - 1]} else multiset{}
  }

  /**
   * The status of position `i`, stated without a working copy: an exact match
   * is Correct; otherwise the letter is in the wrong place exactly when fewer
   * earlier positions missed with the same letter than there are copies of it
   * in the target that no exact match used up.
   */
  function Reference(g: string, w: string, i: nat): Status
    requires |g| == |w| && i < |g|
  {
    if g[i] == w[i] then Correct
    else if Misses(g, w, i)[g[i]] < (multiset(w) - ExactLetters(g, w, |g|))[g[i]] then WrongPlace
    else Incorrect
  }

  /** The target letters used up by the positions marked Correct or WrongPlace among the first `n`. */
  function Credited(g: string, st: seq<Status>, n: nat): multiset<char>
    requires n <= |g| && n <= |st|
  {
    if n == 0 then multiset{}
    else Credited(g, st, n - 1) + if Credits(st[n - 1]) then multiset{g[n - 1]} else multiset{}
  }

  // ---------------------------------------------------------------------------
  // What each loop keeps
  // ---------------------------------------------------------------------------

  /** What one round of the exact-match loop keeps, given that it has not looked at `i` yet. */
  lemma ExactStepKeeps(g: string, w: string, p: Progress, i: nat)
    requires Fits(g, w, p) && i < 5
    requires forall j :: 0 <= j < 5 ==> p.statuses[j] == if j < i && g[j] == w[j] then Correct else NotTested
    requires multiset(p.pool) + ExactLetters(g, w, i) == multiset(w)
    requires ExactLetters(g, w, i) <= multiset(w[..i])
    requires p.correct == multiset(p.statuses)[Correct]
    ensures var q := ExactStep(g, w, p, i);
      && (forall j :: 0 <= j < 5 ==> q.statuses[j] == if j < i + 1 && g[j] == w[j] then Correct else NotTested)
      && multiset(q.pool) + ExactLetters(g, w, i + 1) == multiset(w)
      && ExactLetters(g, w, i + 1) <= multiset(w[..i + 1])
      && q.correct == multiset(q.statuses)[Correct]
  {
    var used := ExactLetters(g, w, i);
    if g[i] == w[i] {
      NextTargetLetterLeft(w, p.pool, used, i);
      ExactMatchUsesUp(w, p.pool, used, i);
      CountOneMore(p.statuses, i);
      assert ExactLetters(g, w, i + 1) == used + multiset{w[i]};
    } else {
      assert ExactLetters(g, w, i + 1) == used;
      assert w[..i + 1] == w[..i] + [w[i]];
    }
  }

  /** Taking the target letter at `i` out of the working copy moves it over to the used-up letters. */
  lemma ExactMatchUsesUp(w: string, pool: string, used: multiset<char>, i: nat)
    requires i < |w| && w[i] in pool
    requires multiset(pool) + used == multiset(w) && used <= multiset(w[..i])
    ensures multiset(RemoveFirst(pool, w[i])) + (used + multiset{w[i]}) == multiset(w)
    ensures used + multiset{w[i]} <= multiset(w[..i + 1])
  {
    assert w[..i + 1] == w[..i] + [w[i]];
  }

  /** Marking one more untested position Correct adds one to the count of Correct marks. */
  lemma CountOneMore(st: seq<Status>, i: nat)
    requires i < |st| && st[i] == NotTested
    ensures multiset(st[i := Correct])[Correct] == multiset(st)[Correct] + 1
  {
  }

  /**
   * While only letters of the first `i` target positions have been taken out
   * of the working copy, the letter at position `i` is still in it.
   */
  lemma NextTargetLetterLeft(w: string, pool: string, used: multiset<char>, i: nat)
    requires i < |w|
    requires multiset(pool) + used == multiset(w) && used <= multiset(w[..i])
    ensures w[i] in pool
  {
    var c := w[i];
    assert w == w[..i] + w[i..];
    assert w[i..][0] == c;
    assert multiset(w)[c] == multiset(w[..i])[c] + multiset(w[i..])[c];
    assert multiset(pool)[c] > 0;
  }

  /**
   * After `k` rounds of the exact-match loop: the first `k` exact matches are
   * Correct and nothing else is scored, the working copy is the target less
   * the letters matched so far, and the count is the number of Correct marks.
   */
  lemma {:induction false} ExactPassFacts(g: string, w: string, h: map<char, Status>, k: nat)
    requires Scorable(g, w, h) && k <= 5
    ensures var p := ExactPass(g, w, h, k);
      && (forall j :: 0 <= j < 5 ==> p.statuses[j] == if j < k && g[j] == w[j] then Correct else NotTested)
      && multiset(p.pool) + ExactLetters(g, w, k) == multiset(w)
      && ExactLetters(g, w, k) <= multiset(w[..k])
      && p.correct == multiset(p.statuses)[Correct]
  {
    if k == 0 {
      assert Correct !in Start(w, h).statuses;
    } else {
      ExactPassFacts(g, w, h, k - 1);
      ExactStepKeeps(g, w, ExactPass(g, w, h, k - 1), k - 1);
    }
  }

  /** Using up one more copy of `c` from what is left of the target. */
  lemma UseUp(pool: string, spare: multiset<char>, m: multiset<char>, c: char)
    requires multiset(pool) == spare - m
    ensures c in pool ==> m[c] < spare[c] && spare - (m + multiset{c}) == multiset(pool) - multiset{c}
    ensures c !in pool ==> m[c] >= spare[c] && spare - (m + multiset{c}) == multiset(pool)
  {
    if c in pool {
      assert multiset(pool)[c] > 0;
    } else {
      assert multiset(pool)[c] == 0;
    }
  }

  /** What one round of the placement loop keeps, given that it has not looked at `i` yet. */
  lemma PlaceStepKeeps(g: string, w: string, p: Progress, i: nat)
    requires Fits(g, w, p) && i < 5
    requires forall j :: 0 <= j < i ==> p.statuses[j] == Reference(g, w, j)
    requires forall j :: i <= j < 5 ==> p.statuses[j] == if g[j] == w[j] then Correct else NotTested
    requires multiset(p.pool) == (multiset(w) - ExactLetters(g, w, 5)) - Misses(g, w, i)
    requires p.correct == multiset(p.statuses)[Correct]
    ensures var q := PlaceStep(g, w, p, i);
      && (forall j :: 0 <= j < i + 1 ==> q.statuses[j] == Reference(g, w, j))
      && (forall j :: i + 1 <= j < 5 ==> q.statuses[j] == if g[j] == w[j] then Correct else NotTested)
      && multiset(q.pool) == (multiset(w) - ExactLetters(g, w, 5)) - Misses(g, w, i + 1)
      && q.correct == multiset(q.statuses)[Correct]
  {
    var c := g[i];
    var spare := multiset(w) - ExactLetters(g, w, 5);
    var m := Misses(g, w, i);
    var q := PlaceStep(g, w, p, i);
    if c == w[i] {
      assert c in multiset(w);
      assert q == p;
      assert Misses(g, w, i + 1) == m;
    } else {
      assert Misses(g, w, i + 1) == m + multiset{c};
      assert p.statuses[i] == NotTested;
      UseUp(p.pool, spare, m, c);
      if c in p.pool {
        assert q.statuses == p.statuses[i := WrongPlace] && q.pool == RemoveFirst(p.pool, c);
        assert Reference(g, w, i) == WrongPlace;
      } else {
        assert q.statuses == p.statuses[i := Incorrect] && q.pool == p.pool;
        assert Reference(g, w, i) == Incorrect;
      }
    }
  }

  /**
   * After the exact-match loop and `k` rounds of the placement loop: the first
   * `k` positions carry their Reference status, the rest are as the first
   * loop left them, and the working copy holds the copies of each letter that
   * neither an exact match nor an earlier miss has used up.
   */
  lemma {:induction false} PlacePassFacts(g: string, w: string, h: map<char, Status>, k: nat)
    requires Scorable(g, w, h) && k <= 5
    ensures var p := PlacePass(g, w, h, k);
      && (forall j :: 0 <= j < k ==> p.statuses[j] == Reference(g, w, j))
      && (forall j :: k <= j < 5 ==> p.statuses[j] == if g[j] == w[j] then Correct else NotTested)
      && multiset(p.pool) == (multiset(w) - ExactLetters(g, w, 5)) - Misses(g, w, k)
      && p.correct == multiset(p.statuses)[Correct]
  {
    if k == 0 {
      ExactPassFacts(g, w, h, 5);
      var p := ExactPass(g, w, h, 5);
      assert multiset(p.pool) == multiset(w) - ExactLetters(g, w, 5);
    } else {
      PlacePassFacts(g, w, h, k - 1);
      PlaceStepKeeps(g, w, PlacePass(g, w, h, k - 1), k - 1);
    }
  }

  // ---------------------------------------------------------------------------
  // Every mark uses up one copy of its letter
  // ---------------------------------------------------------------------------

  lemma {:induction false} CreditedAgree(g: string, st1: seq<Status>, st2: seq<Status>, n: nat)
    requires n <= |g| && n <= |st1| && n <= |st2|
    requires forall j :: 0 <= j < n ==> st1[j] == st2[j]
    ensures Credited(g, st1, n) == Credited(g, st2, n)
  {
    if n > 0 {
      CreditedAgree(g, st1, st2, n - 1);
    }
  }

  /** Marking a position that used nothing up adds its letter exactly when the new mark uses one up. */
  lemma {:induction false} CreditedRaise(g: string, st: seq<Status>, n: nat, i: nat, s: Status)
    requires n <= |g| && n <= |st| && i < n
    requires !Credits(st[i])
    ensures Credited(g, st[i := s], n) == Credited(g, st, n) + if Credits(s) then multiset{g[i]} else multiset{}
  {
    if i == n - 1 {
      CreditedAgree(g, st[i := s], st, n - 1);
    } else {
      CreditedRaise(g, st, n - 1, i, s);
    }
  }

  lemma {:induction false} NothingCredited(g: string, st: seq<Status>, n: nat)
    requires n <= |g| && n <= |st|
    requires forall j :: 0 <= j < n ==> !Credits(st[j])
    ensures Credited(g, st, n) == multiset{}
  {
    if n > 0 {
      NothingCredited(g, st, n - 1);
    }
  }

  /** The letters used up by the marks and the working copy together make up the target. */
  lemma {:induction false} ExactPassConserves(g: string, w: string, h: map<char, Status>, k: nat)
    requires Scorable(g, w, h) && k <= 5
    ensures var p := ExactPass(g, w, h, k); Credited(g, p.statuses, 5) + multiset(p.pool) == multiset(w)
  {
    if k == 0 {
      NothingCredited(g, Start(w, h).statuses, 5);
    } else {
      var i := k - 1;
      ExactPassConserves(g, w, h, i);
      ExactPassFacts(g, w, h, i);
      var p := ExactPass(g, w, h, i);
      if g[i] == w[i] {
        NextTargetLetterLeft(w, p.pool, ExactLetters(g, w, i), i);
      }
      ExactStepConserves(g, w, p, i);
    }
  }

  /** One exact-match round keeps the marks and the working copy adding up to the target. */
  lemma ExactStepConserves(g: string, w: string, p: Progress, i: nat)
    requires Fits(g, w, p) && i < 5
    requires p.statuses[i] == NotTested
    requires g[i] == w[i] ==> w[i] in p.pool
    requires Credited(g, p.statuses, 5) + multiset(p.pool) == multiset(w)
    ensures var q := ExactStep(g, w, p, i); Credited(g, q.statuses, 5) + multiset(q.pool) == multiset(w)
  {
    if g[i] == w[i] {
      CreditedRaise(g, p.statuses, 5, i, Correct);
    }
  }

  /** One placement round keeps the marks and the working copy adding up to the target. */
  lemma PlaceStepConserves(g: string, w: string, p: Progress, i: nat)
    requires Fits(g, w, p) && i < 5
    requires p.statuses[i] == if g[i] == w[i] then Correct else NotTested
    requires Credited(g, p.statuses, 5) + multiset(p.pool) == multiset(w)
    ensures var q := PlaceStep(g, w, p, i); Credited(g, q.statuses, 5) + multiset(q.pool) == multiset(w)
  {
    if g[i] != w[i] {
      var q := PlaceStep(g, w, p, i);
      CreditedRaise(g, p.statuses, 5, i, q.statuses[i]);
    }
  }

  /** The letters used up by the marks and the working copy together make up the target. */
  lemma {:induction false} PlacePassConserves(g: string, w: string, h: map<char, Status>, k: nat)
    requires Scorable(g, w, h) && k <= 5
    ensures var p := PlacePass(g, w, h, k); Credited(g, p.statuses, 5) + multiset(p.pool) == multiset(w)
  {
    if k == 0 {
      ExactPassConserves(g, w, h, 5);
    } else {
      PlacePassConserves(g, w, h, k - 1);
      PlacePassFacts(g, w, h, k - 1);
      PlaceStepConserves(g, w, PlacePass(g, w, h, k - 1), k - 1);
    }
  }

  // ---------------------------------------------------------------------------
  // The hint updates amount to a merge
  // ---------------------------------------------------------------------------

  /** One exact-match round keeps the hints equal to the merge of the marks made so far. */
  lemma ExactStepMerges(g: string, w: string, h: map<char, Status>, p: Progress, i: nat)
    requires Fits(g, w, p) && i < 5
    requires p.statuses[i] == NotTested
    requires p.hints == Merge(h, g, p.statuses)
    ensures var q := ExactStep(g, w, p, i); q.hints == Merge(h, g, q.statuses)
  {
    if g[i] == w[i] {
      MergeRaise(h, g, p.statuses, i, Correct);
    }
  }

  lemma {:induction false} ExactPassMerges(g: string, w: string, h: map<char, Status>, k: nat)
    requires Scorable(g, w, h) && k <= 5
    ensures var p := ExactPass(g, w, h, k); p.hints == Merge(h, g, p.statuses)
  {
    if k == 0 {
      MergeNothingScored(h, g, Start(w, h).statuses);
    } else {
      ExactPassMerges(g, w, h, k - 1);
      ExactPassFacts(g, w, h, k - 1);
      ExactStepMerges(g, w, h, ExactPass(g, w, h, k - 1), k - 1);
    }
  }

  /** Scoring an unscored position `i` as `s` by the update `m'` is merging `s` in. */
  lemma RaiseMerges(h: map<char, Status>, g: string, st: seq<Status>, i: nat, s: Status, m': map<char, Status>)
    requires |g| == |st| && i < |st| && Upper(g[i]) in h
    requires !Scored(st[i]) && Scored(s)
    requires var m := Merge(h, g, st); m' == m[Upper(g[i]) := Max(m[Upper(g[i])], s)]
    ensures m' == Merge(h, g, st[i := s])
  {
    MergeRaise(h, g, st, i, s);
  }

  /** One placement round keeps the hints equal to the merge of the marks made so far. */
  lemma PlaceStepMerges(g: string, w: string, h: map<char, Status>, p: Progress, i: nat)
    requires Fits(g, w, p) && i < 5 && p.hints.Keys == h.Keys
    requires p.statuses[i] == if g[i] == w[i] then Correct else NotTested
    requires p.hints == Merge(h, g, p.statuses)
    ensures var q := PlaceStep(g, w, p, i); q.hints == Merge(h, g, q.statuses)
  {
    if g[i] != w[i] {
      var key := Upper(g[i]);
      var m := p.hints;
      var q := PlaceStep(g, w, p, i);
      if multiset(w)[g[i]] > 0 && g[i] in p.pool {
        assert q.statuses == p.statuses[i := WrongPlace];
        assert q.hints == m[key := Max(m[key], WrongPlace)];
        RaiseMerges(h, g, p.statuses, i, WrongPlace, q.hints);
      } else {
        assert q.statuses == p.statuses[i := Incorrect];
        assert q.hints == m[key := Max(m[key], Incorrect)];
        RaiseMerges(h, g, p.statuses, i, Incorrect, q.hints);
      }
    }
  }

  lemma {:induction false} PlacePassMerges(g: string, w: string, h: map<char, Status>, k: nat)
    requires Scorable(g, w, h) && k <= 5
    ensures var p := PlacePass(g, w, h, k); p.hints == Merge(h, g, p.statuses)
  {
    if k == 0 {
      ExactPassMerges(g, w, h, 5);
    } else {
      PlacePassMerges(g, w, h, k - 1);
      PlacePassFacts(g, w, h, k - 1);
      PlaceStepMerges(g, w, h, PlacePass(g, w, h, k - 1), k - 1);
    }
  }

  // ---------------------------------------------------------------------------
  // What `test_guess` promises
  // ---------------------------------------------------------------------------

  /**
   * Every position gets a verdict (Correct, WrongPlace or Incorrect), and it
   * is the closed-form Reference verdict.
   */
  lemma EvaluateIsReference(guess: string, word: string, h: map<char, Status>)
    requires Scorable(LowerStr(guess), word, h)
    ensures forall i :: 0 <= i < 5 ==> Evaluate(guess, word, h).statuses[i] == Reference(LowerStr(guess), word, i)
    ensures forall i :: 0 <= i < 5 ==> Scored(Evaluate(guess, word, h).statuses[i])
  {
    PlacePassFacts(LowerStr(guess), word, h, 5);
  }

  /**
   * A position is Correct exactly when the lower-cased guess letter is the
   * target letter there, and the returned count is the number of Correct marks.
   */
  lemma EvaluateCorrect(guess: string, word: string, h: map<char, Status>)
    requires Scorable(LowerStr(guess), word, h)
    ensures var p := Evaluate(guess, word, h);
      && (forall i :: 0 <= i < 5 ==> (p.statuses[i] == Correct <==> Lower(guess[i]) == word[i]))
      && p.correct == multiset(p.statuses)[Correct]
  {
    EvaluateIsReference(guess, word, h);
    PlacePassFacts(LowerStr(guess), word, h, 5);
  }

  /**
   * The duplicate-letter rule: for every letter, the positions marked Correct
   * or WrongPlace never outnumber that letter's copies in the target.
   */
  lemma EvaluateNeverOvercredits(guess: string, word: string, h: map<char, Status>)
    requires Scorable(LowerStr(guess), word, h)
    ensures Credited(LowerStr(guess), Evaluate(guess, word, h).statuses, 5) <= multiset(word)
  {
    PlacePassConserves(LowerStr(guess), word, h, 5);
  }

  /**
   * WrongPlace only for a letter that is in the target but not at this
   * position; a letter that is not in the target at all is Incorrect.
   */
  lemma EvaluateWrongPlace(guess: string, word: string, h: map<char, Status>)
    requires Scorable(LowerStr(guess), word, h)
    ensures var g, st := LowerStr(guess), Evaluate(guess, word, h).statuses;
      && (forall i :: 0 <= i < 5 && st[i] == WrongPlace ==> g[i] != word[i] && g[i] in word)
      && (forall i :: 0 <= i < 5 && g[i] !in word ==> st[i] == Incorrect)
  {
    EvaluateIsReference(guess, word, h);
  }

  /**
   * The hints after the call are the hints before it merged with the verdicts:
   * no hint goes down, and only the letters of the guess can go up.
   */
  lemma EvaluateRaisesHints(guess: string, word: string, h: map<char, Status>)
    requires Scorable(LowerStr(guess), word, h)
    ensures var p := Evaluate(guess, word, h);
      && p.hints == Merge(h, LowerStr(guess), p.statuses)
      && (forall k :: k in h ==> Rank(p.hints[k]) >= Rank(h[k]))
      && (forall k :: k in h && (forall i :: 0 <= i < 5 ==> Upper(Lower(guess[i])) != k) ==> p.hints[k] == h[k])
  {
    var p := Evaluate(guess, word, h);
    PlacePassMerges(LowerStr(guess), word, h, 5);
    MergeMeaning(h, LowerStr(guess), p.statuses);
  }

  /** All five positions are Correct exactly when the lower-cased guess is the target. */
  lemma EvaluateWins(guess: string, word: string, h: map<char, Status>)
    requires Scorable(LowerStr(guess), word, h)
    ensures Evaluate(guess, word, h).correct == 5 <==> LowerStr(guess) == word
    ensures LowerStr(guess) == word ==> forall i :: 0 <= i < 5 ==> Evaluate(guess, word, h).statuses[i] == Correct
  {
    var p := Evaluate(guess, word, h);
    var g := LowerStr(guess);
    EvaluateCorrect(guess, word, h);
    AllCorrect(p.statuses);
    assert g == word <==> forall i :: 0 <= i < 5 ==> g[i] == word[i];
  }

  /**
   * `test_guess`: the two loops over the five positions, updating the
   * statuses, the count of exact matches, the working copy `temp_word` and the
   * hint map in place.
   */
  method TestGuess(guess: string, word: string, letters: map<char, Status>)
    returns (statuses: seq<Status>, correctLetters: nat, letters': map<char, Status>)
    requires Scorable(LowerStr(guess), word, letters)
    ensures var p := Evaluate(guess, word, letters);
      statuses == p.statuses && correctLetters == p.correct && letters' == p.hints
    ensures |statuses| == 5 && forall i :: 0 <= i < 5 ==> Scored(statuses[i])
    ensures forall i :: 0 <= i < 5 ==> (statuses[i] == Correct <==> Lower(guess[i]) == word[i])
    ensures correctLetters == multiset(statuses)[Correct]
    ensures forall i :: 0 <= i < 5 ==> statuses[i] == Reference(LowerStr(guess), word, i)
    ensures Credited(LowerStr(guess), statuses, 5) <= multiset(word)
    ensures letters' == Merge(letters, LowerStr(guess), statuses)
  {
    var g := LowerStr(guess);
    statuses := seq(5, _ => NotTested);
    correctLetters := 0;
    var tempWord := word;
    letters' := letters;
    for i := 0 to 5
      invariant Progress(statuses, tempWord, correctLetters, letters') == ExactPass(g, word, letters, i)
    {
      if g[i] == word[i] {
        statuses := statuses[i := Correct];
        letters' := letters'[Upper(g[i]) := Correct];
        correctLetters := correctLetters + 1;
        tempWord := RemoveFirst(tempWord, word[i]);
      }
    }
    for i := 0 to 5
      invariant Progress(statuses, tempWord, correctLetters, letters') == PlacePass(g, word, letters, i)
    {
      var key := Upper(g[i]);
      if multiset(word)[g[i]] > 0 {
        if statuses[i] != Correct {
          if g[i] in tempWord {
            statuses := statuses[i := WrongPlace];
            if letters'[key] != Correct {
              letters' := letters'[key := WrongPlace];
            }
            tempWord := RemoveFirst(tempWord, g[i]);
          } else {
            statuses := statuses[i := Incorrect];
            if letters'[key] != Correct && letters'[key] != WrongPlace {
              letters' := letters'[key := Incorrect];
            }
          }
        }
      } else {
        statuses := statuses[i := Incorrect];
        if letters'[key] != Correct && letters'[key] != WrongPlace {
          letters' := letters'[key := Incorrect];
        }
      }
    }
    EvaluateIsReference(guess, word, letters);
    EvaluateCorrect(guess, word, letters);
    EvaluateNeverOvercredits(guess, word, letters);
    PlacePassMerges(g, word, letters, 5);
  }

  /** The copies "erase" has to spare for "speed": no exact match uses any up. */
  lemma SpeedEraseSpare()
    ensures var spare := multiset("erase") - ExactLetters("speed", "erase", 5);
      spare['s'] == 1 && spare['p'] == 0 && spare['e'] == 2 && spare['d'] == 0
  {
    var g, w := "speed", "erase";
    assert ExactLetters(g, w, 2) == multiset{};
    assert ExactLetters(g, w, 5) == multiset{};
    assert w == ['e', 'r', 'a', 's', 'e'];
    assert multiset(w) == multiset{'e', 'r', 'a', 's', 'e'};
  }

  /** A repeated guess letter against a target with two copies of it: "speed" against "erase". */
  lemma SpeedAgainstErase()
    ensures Reference("speed", "erase", 0) == WrongPlace
    ensures Reference("speed", "erase", 1) == Incorrect
    ensures Reference("speed", "erase", 2) == WrongPlace
    ensures Reference("speed", "erase", 3) == WrongPlace
    ensures Reference("speed", "erase", 4) == Incorrect
  {
    var g, w := "speed", "erase";
    SpeedEraseSpare();
    assert Misses(g, w, 2) == multiset{'s', 'p'};
    assert Misses(g, w, 3) == multiset{'s', 'p', 'e'};
  }

  /** The copies "algae" has to spare for "eagle" once the exact g and e are used up. */
  lemma EagleAlgaeSpare()
    ensures var spare := multiset("algae") - ExactLetters("eagle", "algae", 5);
      spare['e'] == 0 && spare['a'] == 2 && spare['l'] == 1
  {
    var g, w := "eagle", "algae";
    assert ExactLetters(g, w, 2) == multiset{};
    assert ExactLetters(g, w, 5) == multiset{'g', 'e'};
    assert w == ['a', 'l', 'g', 'a', 'e'];
    assert multiset(w) == multiset{'a', 'l', 'g', 'a', 'e'};
  }

  /** A guess "eagle" against "algae": the exact g and e use up their copies first. */
  lemma EagleAgainstAlgae()
    ensures Reference("eagle", "algae", 0) == Incorrect
    ensures Reference("eagle", "algae", 1) == WrongPlace
    ensures Reference("eagle", "algae", 2) == Correct
    ensures Reference("eagle", "algae", 3) == WrongPlace
    ensures Reference("eagle", "algae", 4) == Correct
  {
    var g, w := "eagle", "algae";
    EagleAlgaeSpare();
    assert Misses(g, w, 1) == multiset{'e'};
    assert Misses(g, w, 3) == multiset{'e', 'a'};
  }
}
