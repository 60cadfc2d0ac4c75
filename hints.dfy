/**
 * The keyboard hints: one status per letter of the on-screen keyboard, raised
 * as guesses are scored and never lowered within a round.
 */
module Hints {
  import opened Text
  import opened Statuses

  /** The keyboard letters in the order the source lists them. */
  const Alphabet: string := "QWERTYUIOPASDFGHJKLZXCVBNM"

  /** Every keyboard letter is an upper-case ASCII letter, and there are 26 of them. */
  lemma AlphabetIsUpper()
    ensures |Alphabet| == 26
    ensures forall c :: c in Alphabet ==> IsUpper(c)
  {
    forall i | 0 <= i < |Alphabet| ensures IsUpper(Alphabet[i]) {
    }
  }

  /** Every upper-case ASCII letter is on the keyboard. */
  lemma UpperInAlphabet(c: char)
    requires IsUpper(c)
    ensures c in Alphabet
  {
  }

  /** The hint map of a fresh round. */
  const AllUntested: map<char, Status> := map c | c in Alphabet :: NotTested

  /** The loop that rebuilds the hint map: every keyboard letter untested. */
  method FreshHints() returns (letters: map<char, Status>)
    ensures forall c :: c in letters <==> c in Alphabet
    ensures forall c :: c in letters ==> letters[c] == NotTested
    ensures letters == AllUntested
  {
    letters := map[];
    for i := 0 to |Alphabet|
      invariant forall c :: c in letters <==> c in Alphabet[..i]
      invariant forall c :: c in letters ==> letters[c] == NotTested
    {
      letters := letters[Alphabet[i] := NotTested];
      assert Alphabet[..i + 1] == Alphabet[..i] + [Alphabet[i]];
    }
    assert Alphabet[..|Alphabet|] == Alphabet;
  }

  /**
   * The best scored status among the first `n` positions of the lower-cased
   * guess `g` whose keyboard key is `k`, or Inactive (the bottom of the order)
   * when there is none.
   */
  function Best(g: string, st: seq<Status>, k: char, n: nat): (b: Status)
    requires n <= |g| && n <= |st|
    ensures b == Inactive || Scored(b)
  {
    if n == 0 then Inactive
    else
      var b := Best(g, st, k, n - 1);
      if Upper(g[n - 1]) == k && Scored(st[n - 1]) then Max(b, st[n - 1]) else b
  }

  /** The best status is at least every status its key earned, and one of them unless none was earned. */
  lemma {:induction false} BestBounds(g: string, st: seq<Status>, k: char, n: nat)
    requires n <= |g| && n <= |st|
    ensures forall i :: 0 <= i < n && Upper(g[i]) == k && Scored(st[i]) ==> Rank(st[i]) <= Rank(Best(g, st, k, n))
    ensures Best(g, st, k, n) != Inactive ==> exists i :: 0 <= i < n && Upper(g[i]) == k && st[i] == Best(g, st, k, n)
  {
    if n > 0 {
      BestBounds(g, st, k, n - 1);
    }
  }

  /**
   * The hint map after the lower-cased guess `g` was scored `st`: every key
   * raised to the best status its letter earned in this guess.
   */
  function Merge(h: map<char, Status>, g: string, st: seq<Status>): (r: map<char, Status>)
    requires |g| == |st|
    ensures r.Keys == h.Keys
  {
    map k | k in h :: Max(h[k], Best(g, st, k, |g|))
  }

  /**
   * What merging a scored guess does to the hints: no hint is lowered, each
   * hint is at least every status its letter earned, and a hint that changed
   * took the status of some position holding its letter (so the hints of
   * letters that are not in the guess are unchanged).
   */
  lemma MergeMeaning(h: map<char, Status>, g: string, st: seq<Status>)
    requires |g| == |st|
    ensures forall k :: k in h ==> Rank(Merge(h, g, st)[k]) >= Rank(h[k])
    ensures forall k, i :: k in h && 0 <= i < |g| && Upper(g[i]) == k && Scored(st[i]) ==>
      Rank(Merge(h, g, st)[k]) >= Rank(st[i])
    ensures forall k :: k in h && Merge(h, g, st)[k] != h[k] ==>
      exists i :: 0 <= i < |g| && Upper(g[i]) == k && Merge(h, g, st)[k] == st[i]
  {
    forall k | k in h {
      BestBounds(g, st, k, |g|);
    }
  }

  lemma {:induction false} BestAgree(g: string, st1: seq<Status>, st2: seq<Status>, k: char, n: nat)
    requires n <= |g| && n <= |st1| && n <= |st2|
    requires forall j :: 0 <= j < n ==> st1[j] == st2[j]
    ensures Best(g, st1, k, n) == Best(g, st2, k, n)
  {
    if n > 0 {
      BestAgree(g, st1, st2, k, n - 1);
    }
  }

  /** Raising by two statuses does not depend on their order. */
  lemma MaxSwap(a: Status, b: Status, c: Status)
    ensures Max(Max(a, b), c) == Max(Max(a, c), b)
  {
  }

  /** Scoring one still unscored position raises the best status of its key only. */
  lemma {:induction false} BestRaise(g: string, st: seq<Status>, k: char, n: nat, i: nat, s: Status)
    requires n <= |g| && n <= |st| && i < n
    requires !Scored(st[i])
    ensures Best(g, st[i := s], k, n) ==
      if Upper(g[i]) == k && Scored(s) then Max(Best(g, st, k, n), s) else Best(g, st, k, n)
  {
    var st' := st[i := s];
    var b, b' := Best(g, st, k, n - 1), Best(g, st', k, n - 1);
    var x := st[n - 1];
    assert Best(g, st, k, n) == if Upper(g[n - 1]) == k && Scored(x) then Max(b, x) else b;
    assert Best(g, st', k, n) == if Upper(g[n - 1]) == k && Scored(st'[n - 1]) then Max(b', st'[n - 1]) else b';
    if i == n - 1 {
      BestAgree(g, st', st, k, n - 1);
    } else {
      BestRaise(g, st, k, n - 1, i, s);
      assert st'[n - 1] == x;
      if Upper(g[n - 1]) == k && Scored(x) && Upper(g[i]) == k && Scored(s) {
        MaxSwap(b, s, x);
      }
    }
  }

  /** A guess with nothing scored leaves the hints as they were. */
  lemma MergeNothingScored(h: map<char, Status>, g: string, st: seq<Status>)
    requires |g| == |st|
    requires forall i :: 0 <= i < |st| ==> !Scored(st[i])
    ensures Merge(h, g, st) == h
  {
    forall k | k in h ensures Best(g, st, k, |g|) == Inactive {
      BestBounds(g, st, k, |g|);
    }
  }

  /**
   * Scoring one position `i` as `s` raises exactly the hint of that position's
   * key to the higher of its hint and `s`.
   */
  lemma MergeRaise(h: map<char, Status>, g: string, st: seq<Status>, i: nat, s: Status)
    requires |g| == |st| && i < |st|
    requires Upper(g[i]) in h && !Scored(st[i])
    ensures Scored(s) ==>
      Merge(h, g, st[i := s]) == Merge(h, g, st)[Upper(g[i]) := Max(Merge(h, g, st)[Upper(g[i])], s)]
    ensures !Scored(s) ==> Merge(h, g, st[i := s]) == Merge(h, g, st)
  {
    var key := Upper(g[i]);
    var m := Merge(h, g, st);
    var m' := Merge(h, g, st[i := s]);
    forall k | k in h
      ensures m'[k] == if k == key && Scored(s) then Max(m[key], s) else m[k]
    {
      BestRaise(g, st, k, |g|, i, s);
    }
    if Scored(s) {
      assert m' == m[key := Max(m[key], s)];
    } else {
      assert m' == m;
    }
  }
}
