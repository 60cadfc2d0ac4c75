/**
 * The status of a grid square or of a keyboard letter, and the order in which
 * a keyboard hint may only move upward.
 */
module Statuses {

  /** The declaration order is the enum value of the source: INACTIVE = 0 … CORRECT = 4. */
  datatype Status = Inactive | NotTested | Incorrect | WrongPlace | Correct

  function Rank(s: Status): nat
  {
    match s
    case Inactive => 0
    case NotTested => 1
    case Incorrect => 2
    case WrongPlace => 3
    case Correct => 4
  }

  /** A status the evaluator hands out: it says something about the letter. */
  predicate Scored(s: Status)
  {
    s == Incorrect || s == WrongPlace || s == Correct
  }

  /** A status that uses up one copy of the letter in the target. */
  predicate Credits(s: Status)
  {
    s == WrongPlace || s == Correct
  }

  /** The higher of two statuses in the hint order. */
  function Max(a: Status, b: Status): (m: Status)
    ensures Rank(m) >= Rank(a) && Rank(m) >= Rank(b)
    ensures m == a || m == b
  {
    if Rank(a) >= Rank(b) then a else b
  }

  /** Every status of `st` is Correct exactly when all of `st` counts as Correct. */
  lemma {:induction false} AllCorrect(st: seq<Status>)
    ensures multiset(st)[Correct] == |st| <==> forall i :: 0 <= i < |st| ==> st[i] == Correct
  {
    if |st| > 0 {
      var t := st[..|st| - 1];
      AllCorrect(t);
      assert st == t + [st[|st| - 1]];
      assert multiset(st) == multiset(t) + multiset{st[|st| - 1]};
      assert multiset(t)[Correct] <= |t|;
      if forall i :: 0 <= i < |st| ==> st[i] == Correct {
        assert forall i :: 0 <= i < |t| ==> t[i] == Correct;
      }
    }
  }
}
