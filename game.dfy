/**
 * The turn and round state machine of the game window (`Screen`): the 6×5
 * grid, the cursor, the round state and the caption, driven by key presses.
 * Drawing is left out; the key events arrive already decoded.
 */
module Game {
  import opened Text
  import opened Statuses
  import opened Hints
  import opened Evaluator
  import opened Dictionary

  /** A grid square (`Square`): its letter, "" while empty, and its status. */
  datatype Cell = Cell(letter: string, status: Status)

  datatype GameState = InGame | OutOfGame

  /** The line under the grid. */
  datatype Caption =
    | Welcome               // "Welcome! Start typing to begin"
    | GuessNo(n: nat)       // "Guess #n"
    | Won                   // "Congratulations! You won!"
    | Lost(word: string)    // "You lost! The word was: WORD"
    | NotInList             // "Word is not in word list. Try another word."

  /**
   * A key press as the handler tells them apart: a letter key (keycode 65–90
   * with an alphabetic character, `c` being the upper-cased letter it
   * carries), backspace (keycode 8), enter (keycode 13) or any other key.
   */
  datatype Key = Letter(c: char) | Backspace | Enter | Other

  /** A letter key carries one upper-case ASCII letter. */
  predicate Decoded(e: Key)
  {
    e.Letter? ==> IsUpper(e.c)
  }

  /**
   * Everything a key press reads or changes: the window's `grid`,
   * `active_row`, `active_column`, `state` and `caption`, and the globals
   * `letters` and `word`.
   */
  datatype Round = Round(grid: seq<seq<Cell>>, row: nat, column: nat, state: GameState,
                         caption: Caption, letters: map<char, Status>, word: string)

  /** A word list the game can draw targets from. */
  predicate WordList(dictionary: seq<string>)
  {
    |dictionary| > 0 && forall i :: 0 <= i < |dictionary| ==> |dictionary[i]| == 5
  }

  /** What a square can hold: nothing, or one upper-case letter. */
  predicate GoodLetter(l: string)
  {
    l == "" || (|l| == 1 && IsUpper(l[0]))
  }

  predicate RowFull(cells: seq<Cell>)
  {
    forall j :: 0 <= j < |cells| ==> cells[j].letter != ""
  }

  /**
   * The cursor invariant of the active row: the squares left of the column
   * are filled, those right of it empty, and the square at the column is
   * filled only when it is the last one.
   */
  predicate Cursor(cells: seq<Cell>, column: nat)
  {
    && |cells| == 5 && column < 5
    && (forall j :: 0 <= j < column ==> cells[j].letter != "")
    && (forall j :: column < j < 5 ==> cells[j].letter == "")
    && (cells[column].letter != "" ==> column == 4)
  }

  /** Six rows of five squares. */
  predicate Shaped(grid: seq<seq<Cell>>)
  {
    |grid| == 6 && forall r :: 0 <= r < 6 ==> |grid[r]| == 5
  }

  /** The invariant of a round. */
  predicate Inv(s: Round)
  {
    && Shaped(s.grid)
    && s.row < 6 && |s.word| == 5
    && (forall c :: c in s.letters <==> c in Alphabet)
    && (forall r, j :: 0 <= r < 6 && 0 <= j < 5 ==> GoodLetter(s.grid[r][j].letter))
    // rows already submitted are full and scored
    && (forall r, j :: 0 <= r < s.row && 0 <= j < 5 ==> s.grid[r][j].letter != "" && Scored(s.grid[r][j].status))
    // rows not reached yet are untouched
    && (forall r, j :: s.row < r < 6 && 0 <= j < 5 ==> s.grid[r][j] == Cell("", Inactive))
    && Cursor(s.grid[s.row], s.column)
    // the active row is unscored while the round goes on, and full and scored once it is over
    && (s.state == InGame ==> forall j :: 0 <= j < 5 ==> s.grid[s.row][j].status == NotTested)
    && (s.state == OutOfGame ==> forall j :: 0 <= j < 5 ==> s.grid[s.row][j].letter != "" && Scored(s.grid[s.row][j].status))
  }

  // ---------------------------------------------------------------------------
  // Rows
  // ---------------------------------------------------------------------------

  /** The guess spelled by a row: its letters concatenated from left to right. */
  function RowWord(cells: seq<Cell>): (w: string)
    ensures (forall j :: 0 <= j < |cells| ==> |cells[j].letter| == 1) ==>
      |w| == |cells| && forall j :: 0 <= j < |cells| ==> w[j] == cells[j].letter[0]
  {
    if |cells| == 0 then "" else RowWord(cells[..|cells| - 1]) + cells[|cells| - 1].letter
  }

  /** The statuses of a row, from left to right. */
  function RowStatuses(cells: seq<Cell>): (st: seq<Status>)
  {
    seq(|cells|, j requires 0 <= j < |cells| => cells[j].status)
  }

  /** A row with its letters kept and its statuses replaced by `statuses`. */
  function WithStatuses(cells: seq<Cell>, statuses: seq<Status>): (r: seq<Cell>)
    requires |statuses| == |cells|
  {
    seq(|cells|, j requires 0 <= j < |cells| => Cell(cells[j].letter, statuses[j]))
  }

  /** A row with its letters kept and every status set to `s`. */
  function WithStatus(cells: seq<Cell>, s: Status): (r: seq<Cell>)
  {
    seq(|cells|, j requires 0 <= j < |cells| => Cell(cells[j].letter, s))
  }

  /** A row emptied for a new attempt. */
  function Cleared(n: nat): (r: seq<Cell>)
  {
    seq(n, _ => Cell("", NotTested))
  }

  /** The grid of `initiate_window`: the first row untested, the others inactive. */
  function FreshGrid(): (g: seq<seq<Cell>>)
    ensures Shaped(g)
    ensures forall r, j :: 0 <= r < 6 && 0 <= j < 5 ==> g[r][j].letter == "" && g[r][j].status == (if r == 0 then NotTested else Inactive)
  {
    seq(6, r => seq(5, _ => Cell("", if r == 0 then NotTested else Inactive)))
  }

  /** A new round on the target word `w`. */
  function NewRound(w: string): (r: Round)
    ensures Shaped(r.grid)
  {
    Round(FreshGrid(), 0, 0, InGame, Welcome, AllUntested, w)
  }

  function SetLetter(grid: seq<seq<Cell>>, r: nat, j: nat, l: string): seq<seq<Cell>>
    requires r < |grid| && j < |grid[r]|
  {
    grid[r := grid[r][j := grid[r][j].(letter := l)]]
  }

  // ---------------------------------------------------------------------------
  // Key presses
  // ---------------------------------------------------------------------------

  /** A letter typed into the empty active square. */
  function TypeLetter(s: Round, c: char): (r: Round)
    requires Inv(s)
    ensures Shaped(r.grid)
  {
    s.(grid := SetLetter(s.grid, s.row, s.column, [c]),
       column := if s.column <= 3 then s.column + 1 else s.column,
       caption := GuessNo(s.row + 1))
  }

  /** Backspace: step back over an empty square, then empty the square under the cursor. */
  function EraseLetter(s: Round): (r: Round)
    requires Inv(s)
    ensures Shaped(r.grid)
  {
    var column := if s.column >= 1 && s.grid[s.row][s.column].letter == "" then s.column - 1 else s.column;
    s.(grid := SetLetter(s.grid, s.row, column, ""), column := column, caption := GuessNo(s.row + 1))
  }

  /** The guess of a full active row is five upper-case letters the hint map has keys for. */
  lemma GuessScorable(s: Round)
    requires Inv(s) && RowFull(s.grid[s.row])
    ensures var guess := RowWord(s.grid[s.row]);
      && |guess| == 5 && (forall i :: 0 <= i < 5 ==> IsUpper(guess[i]))
      && Scorable(LowerStr(guess), s.word, s.letters)
  {
    var guess := RowWord(s.grid[s.row]);
    forall i | 0 <= i < 5
      ensures IsUpper(guess[i]) && Upper(LowerStr(guess)[i]) in s.letters
    {
      assert GoodLetter(s.grid[s.row][i].letter);
      CaseRoundTrip(guess[i]);
      UpperInAlphabet(guess[i]);
    }
  }

  /**
   * A valid guess scored as `statuses` with `correct` exact matches: the row
   * takes the statuses and the hints become `hints`; then the round is won,
   * goes on to the next row, or is lost on the last one.
   */
  function Score(s: Round, statuses: seq<Status>, correct: nat, hints: map<char, Status>): (r: Round)
    requires Inv(s) && |statuses| == 5
    ensures Shaped(r.grid)
  {
    var scored := s.grid[s.row := WithStatuses(s.grid[s.row], statuses)];
    if correct == 5 then
      s.(grid := scored, caption := Won, state := OutOfGame, letters := hints)
    else if s.row <= 4 then
      s.(grid := scored[s.row + 1 := WithStatus(scored[s.row + 1], NotTested)],
         row := s.row + 1, column := 0, caption := GuessNo(s.row + 2), letters := hints)
    else
      s.(grid := scored, caption := Lost(UpperStr(s.word)), state := OutOfGame, letters := hints)
  }

  /** Enter on a full active row. */
  function Submit(dictionary: seq<string>, s: Round): (r: Round)
    requires Inv(s) && RowFull(s.grid[s.row])
    ensures Shaped(r.grid)
  {
    GuessScorable(s);
    var guess := RowWord(s.grid[s.row]);
    var validation := GuessValidation(dictionary, guess);
    if validation == Valid then
      var p := Evaluate(guess, s.word, s.letters);
      Score(s, p.statuses, p.correct, p.hints)
    else if validation == NotInDictionary then
      s.(grid := s.grid[s.row := Cleared(5)], column := 0, caption := NotInList)
    else
      s
  }

  /**
   * `onKeyPress`: once the round is over any key starts a new one on the word
   * `dictionary[pick]` (`pick` stands for the random draw); otherwise the key
   * types, erases or submits.
   */
  function Step(dictionary: seq<string>, s: Round, e: Key, pick: nat): (r: Round)
    requires Inv(s) && pick < |dictionary|
    ensures Shaped(r.grid)
  {
    if s.state == OutOfGame then NewRound(NewWord(dictionary, pick))
    else
      match e
      case Letter(c) => if s.grid[s.row][s.column].letter == "" then TypeLetter(s, c) else s
      case Backspace => EraseLetter(s)
      case Enter =>
        if s.grid[s.row][s.column].letter != "" then
          EnterGuard(s);
          Submit(dictionary, s)
        else s
      case Other => s
  }

  /** The Enter guard "active square not empty" holds exactly when the active row is full. */
  lemma EnterGuard(s: Round)
    requires Inv(s)
    ensures s.grid[s.row][s.column].letter != "" <==> RowFull(s.grid[s.row])
  {
  }

  // ---------------------------------------------------------------------------
  // The invariant is kept
  // ---------------------------------------------------------------------------

  lemma NewRoundInv(w: string)
    requires |w| == 5
    ensures Inv(NewRound(w))
  {
  }

  lemma TypeKeepsInv(s: Round, c: char)
    requires Inv(s) && s.state == InGame && IsUpper(c) && s.grid[s.row][s.column].letter == ""
    ensures Inv(TypeLetter(s, c))
  {
  }

  lemma EraseKeepsInv(s: Round)
    requires Inv(s) && s.state == InGame
    ensures Inv(EraseLetter(s))
  {
  }

  /** Scoring the full active row with scored statuses leaves the rest of the grid alone. */
  lemma ScoredRowFacts(s: Round, st: seq<Status>)
    requires Inv(s) && RowFull(s.grid[s.row]) && |st| == 5
    requires forall i :: 0 <= i < 5 ==> Scored(st[i])
    ensures var g := s.grid[s.row := WithStatuses(s.grid[s.row], st)];
      && |g| == 6 && (forall r :: 0 <= r < 6 ==> |g[r]| == 5)
      && (forall r, j :: 0 <= r < 6 && 0 <= j < 5 ==> g[r][j].letter == s.grid[r][j].letter)
      && (forall r, j :: 0 <= r <= s.row && 0 <= j < 5 ==> g[r][j].letter != "" && Scored(g[r][j].status))
      && (forall r :: 0 <= r < 6 && r != s.row ==> g[r] == s.grid[r])
  {
  }

  /** The round ends on the scored row: won, or lost on the last row. */
  lemma EndKeepsInv(s: Round, st: seq<Status>, c: Caption, h: map<char, Status>)
    requires Inv(s) && RowFull(s.grid[s.row]) && |st| == 5
    requires forall i :: 0 <= i < 5 ==> Scored(st[i])
    requires h.Keys == s.letters.Keys
    ensures Inv(s.(grid := s.grid[s.row := WithStatuses(s.grid[s.row], st)], caption := c, state := OutOfGame, letters := h))
  {
    ScoredRowFacts(s, st);
  }

  /** The scored row is left behind and the next one opened. */
  lemma AdvanceKeepsInv(s: Round, st: seq<Status>, h: map<char, Status>)
    requires Inv(s) && s.state == InGame && RowFull(s.grid[s.row]) && |st| == 5 && s.row <= 4
    requires forall i :: 0 <= i < 5 ==> Scored(st[i])
    requires h.Keys == s.letters.Keys
    ensures var scored := s.grid[s.row := WithStatuses(s.grid[s.row], st)];
      Inv(s.(grid := scored[s.row + 1 := WithStatus(scored[s.row + 1], NotTested)],
             row := s.row + 1, column := 0, caption := GuessNo(s.row + 2), letters := h))
  {
    ScoredRowFacts(s, st);
    var scored := s.grid[s.row := WithStatuses(s.grid[s.row], st)];
    var g := scored[s.row + 1 := WithStatus(scored[s.row + 1], NotTested)];
    var next := g[s.row + 1];
    assert forall j :: 0 <= j < 5 ==> next[j] == Cell("", NotTested);
  }

  lemma ValidKeepsInv(dictionary: seq<string>, s: Round)
    requires Inv(s) && s.state == InGame && RowFull(s.grid[s.row])
    requires GuessValidation(dictionary, RowWord(s.grid[s.row])) == Valid
    ensures Inv(Submit(dictionary, s))
  {
    GuessScorable(s);
    var guess := RowWord(s.grid[s.row]);
    var p := Evaluate(guess, s.word, s.letters);
    EvaluateIsReference(guess, s.word, s.letters);
    EvaluateRaisesHints(guess, s.word, s.letters);
    if p.correct == 5 {
      EndKeepsInv(s, p.statuses, Won, p.hints);
    } else if s.row <= 4 {
      AdvanceKeepsInv(s, p.statuses, p.hints);
    } else {
      EndKeepsInv(s, p.statuses, Lost(UpperStr(s.word)), p.hints);
    }
  }

  lemma NotInListKeepsInv(dictionary: seq<string>, s: Round)
    requires Inv(s) && s.state == InGame && RowFull(s.grid[s.row])
    requires GuessValidation(dictionary, RowWord(s.grid[s.row])) == NotInDictionary
    ensures Inv(Submit(dictionary, s))
  {
  }

  lemma SubmitKeepsInv(dictionary: seq<string>, s: Round)
    requires Inv(s) && s.state == InGame && RowFull(s.grid[s.row])
    ensures Inv(Submit(dictionary, s))
  {
    GuessScorable(s);
    var v := GuessValidation(dictionary, RowWord(s.grid[s.row]));
    if v == Valid {
      ValidKeepsInv(dictionary, s);
    } else if v == NotInDictionary {
      NotInListKeepsInv(dictionary, s);
    }
  }

  /** Every key press keeps the invariant, the cursor invariant among it. */
  lemma StepKeepsInv(dictionary: seq<string>, s: Round, e: Key, pick: nat)
    requires WordList(dictionary) && Inv(s) && Decoded(e) && pick < |dictionary|
    ensures Inv(Step(dictionary, s, e, pick))
  {
    if s.state == OutOfGame {
      NewRoundInv(NewWord(dictionary, pick));
    } else {
      match e
      case Letter(c) =>
        if s.grid[s.row][s.column].letter == "" { TypeKeepsInv(s, c); }
      case Backspace => EraseKeepsInv(s);
      case Enter =>
        if s.grid[s.row][s.column].letter != "" { EnterGuard(s); SubmitKeepsInv(dictionary, s); }
      case Other =>
    }
  }

  // ---------------------------------------------------------------------------
  // What a key press does
  // ---------------------------------------------------------------------------

  /** Enter on a row that is not yet full changes nothing. */
  lemma EnterIncomplete(dictionary: seq<string>, s: Round, pick: nat)
    requires Inv(s) && s.state == InGame && pick < |dictionary| && !RowFull(s.grid[s.row])
    ensures Step(dictionary, s, Enter, pick) == s
  {
    EnterGuard(s);
  }

  /** Enter on a full row whose word is not in the list empties the row and keeps the attempt. */
  lemma EnterNotInList(dictionary: seq<string>, s: Round, pick: nat)
    requires Inv(s) && s.state == InGame && pick < |dictionary| && RowFull(s.grid[s.row])
    requires LowerStr(RowWord(s.grid[s.row])) !in dictionary
    ensures var t := Step(dictionary, s, Enter, pick);
      && t.state == InGame && t.row == s.row && t.column == 0 && t.caption == NotInList
      && (forall j :: 0 <= j < 5 ==> t.grid[s.row][j] == Cell("", NotTested))
      && (forall r :: 0 <= r < 6 && r != s.row ==> t.grid[r] == s.grid[r])
      && t.letters == s.letters && t.word == s.word
  {
    EnterGuard(s);
    GuessScorable(s);
  }

  /** Enter on a full row of a round in progress submits it. */
  lemma EnterSubmits(dictionary: seq<string>, s: Round, pick: nat)
    requires Inv(s) && s.state == InGame && pick < |dictionary| && RowFull(s.grid[s.row])
    ensures Step(dictionary, s, Enter, pick) == Submit(dictionary, s)
  {
    EnterGuard(s);
  }

  /** A valid submission scores the active row and takes the evaluated hints. */
  lemma SubmitValidScores(dictionary: seq<string>, s: Round)
    requires Inv(s) && RowFull(s.grid[s.row])
    requires GuessValidation(dictionary, RowWord(s.grid[s.row])) == Valid
    requires Scorable(LowerStr(RowWord(s.grid[s.row])), s.word, s.letters)
    ensures var t, p := Submit(dictionary, s), Evaluate(RowWord(s.grid[s.row]), s.word, s.letters);
      && |t.grid| == 6 && t.grid[s.row] == WithStatuses(s.grid[s.row], p.statuses)
      && t.letters == p.hints && t.word == s.word
  {
    GuessScorable(s);
  }

  /** A submission that is not valid leaves the hints as they were. */
  lemma SubmitInvalidHints(dictionary: seq<string>, s: Round)
    requires Inv(s) && RowFull(s.grid[s.row])
    requires GuessValidation(dictionary, RowWord(s.grid[s.row])) != Valid
    ensures Submit(dictionary, s).letters == s.letters
  {
  }

  /**
   * Enter on a full row whose word is in the list scores the row by the
   * reference verdict and raises the hints by the merge of the scored row.
   */
  lemma EnterScores(dictionary: seq<string>, s: Round, pick: nat)
    requires Inv(s) && s.state == InGame && pick < |dictionary| && RowFull(s.grid[s.row])
    requires LowerStr(RowWord(s.grid[s.row])) in dictionary
    ensures var t, g := Step(dictionary, s, Enter, pick), LowerStr(RowWord(s.grid[s.row]));
      && (forall j :: 0 <= j < 5 ==> t.grid[s.row][j] == Cell(s.grid[s.row][j].letter, Reference(g, s.word, j)))
      && t.letters == Merge(s.letters, g, RowStatuses(t.grid[s.row]))
      && (forall k :: k in s.letters ==> Rank(t.letters[k]) >= Rank(s.letters[k]))
      && t.word == s.word
  {
    GuessScorable(s);
    var guess := RowWord(s.grid[s.row]);
    var p := Evaluate(guess, s.word, s.letters);
    EvaluateIsReference(guess, s.word, s.letters);
    EvaluateRaisesHints(guess, s.word, s.letters);
    SubmitValidScores(dictionary, s);
    EnterSubmits(dictionary, s, pick);
    assert RowStatuses(Submit(dictionary, s).grid[s.row]) == p.statuses;
  }

  /** A valid guess ends the round as won exactly when it is the word, with every square correct. */
  lemma EnterWins(dictionary: seq<string>, s: Round, pick: nat)
    requires Inv(s) && s.state == InGame && pick < |dictionary| && RowFull(s.grid[s.row])
    requires LowerStr(RowWord(s.grid[s.row])) in dictionary
    ensures var t := Step(dictionary, s, Enter, pick);
      && (t.caption == Won <==> LowerStr(RowWord(s.grid[s.row])) == s.word)
      && (t.caption == Won ==>
            t.state == OutOfGame && t.row == s.row && forall j :: 0 <= j < 5 ==> t.grid[s.row][j].status == Correct)
  {
    EnterGuard(s);
    GuessScorable(s);
    EvaluateWins(RowWord(s.grid[s.row]), s.word, s.letters);
  }

  /** A valid guess that is not the word, on one of the first five rows, opens the next row. */
  lemma EnterAdvances(dictionary: seq<string>, s: Round, pick: nat)
    requires Inv(s) && s.state == InGame && pick < |dictionary| && RowFull(s.grid[s.row])
    requires LowerStr(RowWord(s.grid[s.row])) in dictionary && LowerStr(RowWord(s.grid[s.row])) != s.word
    requires s.row < 5
    ensures var t := Step(dictionary, s, Enter, pick);
      && t.state == InGame && t.row == s.row + 1 && t.column == 0 && t.caption == GuessNo(s.row + 2)
      && (forall j :: 0 <= j < 5 ==> t.grid[t.row][j] == Cell("", NotTested))
      && (forall r :: 0 <= r < s.row ==> t.grid[r] == s.grid[r])
  {
    EnterGuard(s);
    GuessScorable(s);
    EvaluateWins(RowWord(s.grid[s.row]), s.word, s.letters);
  }

  /** A valid guess that is not the word, on the last row, loses the round and shows the word. */
  lemma EnterLoses(dictionary: seq<string>, s: Round, pick: nat)
    requires Inv(s) && s.state == InGame && pick < |dictionary| && RowFull(s.grid[s.row])
    requires LowerStr(RowWord(s.grid[s.row])) in dictionary && LowerStr(RowWord(s.grid[s.row])) != s.word
    requires s.row == 5
    ensures var t := Step(dictionary, s, Enter, pick);
      && t.state == OutOfGame && t.row == 5 && t.caption == Lost(UpperStr(s.word))
  {
    EnterGuard(s);
    GuessScorable(s);
    EvaluateWins(RowWord(s.grid[s.row]), s.word, s.letters);
  }

  /**
   * Once the round is over, any key starts a new round on a word of the list,
   * whatever the key: an empty grid with the cursor at its start and every
   * hint back to untested.
   */
  lemma ResetOnAnyKey(dictionary: seq<string>, s: Round, e1: Key, e2: Key, pick: nat)
    requires Inv(s) && s.state == OutOfGame && pick < |dictionary|
    ensures Step(dictionary, s, e1, pick) == Step(dictionary, s, e2, pick)
    ensures var t := Step(dictionary, s, e1, pick);
      && t.state == InGame && t.row == 0 && t.column == 0 && t.caption == Welcome
      && t.word in dictionary
      && (forall r, j :: 0 <= r < 6 && 0 <= j < 5 ==> t.grid[r][j].letter == "")
      && (forall k :: k in t.letters <==> k in Alphabet)
      && (forall k :: k in t.letters ==> t.letters[k] == NotTested)
  {
  }

  /** A letter key fills the first empty square of the active row and nothing else. */
  lemma TypeFillsFirstEmpty(dictionary: seq<string>, s: Round, c: char, pick: nat)
    requires Inv(s) && s.state == InGame && pick < |dictionary| && IsUpper(c)
    requires !RowFull(s.grid[s.row])
    ensures var t, n := Step(dictionary, s, Letter(c), pick), s.column;
      && (forall j :: 0 <= j < n ==> s.grid[s.row][j].letter != "")
      && s.grid[s.row][n].letter == ""
      && t.grid == SetLetter(s.grid, s.row, n, [c])
      && t.row == s.row && t.letters == s.letters && t.state == InGame
  {
    EnterGuard(s);
  }

  /**
   * Backspace empties the last filled square of the active row, or the first
   * square when none is filled, and changes no other square.
   */
  lemma EraseClearsLast(dictionary: seq<string>, s: Round, pick: nat)
    requires Inv(s) && s.state == InGame && pick < |dictionary|
    ensures var t := Step(dictionary, s, Backspace, pick);
      && t.row == s.row && t.letters == s.letters && t.state == InGame && t.word == s.word
      && t.grid == SetLetter(s.grid, s.row, t.column, "")
      && (s.grid[s.row][t.column].letter != "" ||
          (t.column == 0 && forall j :: 0 <= j < 5 ==> s.grid[s.row][j].letter == ""))
      && (forall j :: t.column < j < 5 ==> s.grid[s.row][j].letter == "")
  {
  }

  /** A letter key on a full row changes nothing. */
  lemma TypeOnFullRow(dictionary: seq<string>, s: Round, c: char, pick: nat)
    requires Inv(s) && s.state == InGame && pick < |dictionary| && RowFull(s.grid[s.row])
    ensures Step(dictionary, s, Letter(c), pick) == s
  {
    EnterGuard(s);
  }

  /** Typing a letter and then erasing it gives back the grid and the cursor. */
  lemma TypeThenErase(dictionary: seq<string>, s: Round, c: char, pick: nat)
    requires Inv(s) && s.state == InGame && pick < |dictionary| && IsUpper(c)
    requires s.grid[s.row][s.column].letter == ""
    ensures var t := Step(dictionary, Step(dictionary, s, Letter(c), pick), Backspace, pick);
      t.grid == s.grid && t.column == s.column && t.row == s.row && t.letters == s.letters
  {
    var t1 := Step(dictionary, s, Letter(c), pick);
    var t2 := Step(dictionary, t1, Backspace, pick);
    TypeKeepsInv(s, c);
    assert t1.grid[s.row][t1.column].letter == "" <==> s.column <= 3;
    assert t2.column == s.column;
    assert t2.grid[s.row] == s.grid[s.row];
  }

  /** No key press of a round lowers a hint; only Enter on a valid guess changes them. */
  lemma StepNeverLowersHints(dictionary: seq<string>, s: Round, e: Key, pick: nat)
    requires Inv(s) && s.state == InGame && pick < |dictionary|
    ensures var t := Step(dictionary, s, e, pick);
      && t.letters.Keys == s.letters.Keys
      && (forall k :: k in s.letters ==> Rank(t.letters[k]) >= Rank(s.letters[k]))
      && (e != Enter ==> t.letters == s.letters)
  {
    if e == Enter && s.grid[s.row][s.column].letter != "" {
      EnterGuard(s);
      GuessScorable(s);
      var guess := RowWord(s.grid[s.row]);
      assert Step(dictionary, s, e, pick) == Submit(dictionary, s);
      if GuessValidation(dictionary, guess) == Valid {
        SubmitValidScores(dictionary, s);
        EvaluateRaisesHints(guess, s.word, s.letters);
      } else {
        SubmitInvalidHints(dictionary, s);
      }
    }
  }

  // ---------------------------------------------------------------------------
  // The grid rows as the window's loops walk them
  // ---------------------------------------------------------------------------

  /** The guess read off a row, square by square. */
  method ReadGuess(cells: seq<Cell>) returns (guess: string)
    ensures guess == RowWord(cells)
  {
    guess := "";
    for j := 0 to |cells|
      invariant guess == RowWord(cells[..j])
    {
      assert cells[..j + 1][..j] == cells[..j];
      guess := guess + cells[j].letter;
    }
    assert cells[..|cells|] == cells;
  }

  /** The row with each square given the status at its position. */
  method SetStatuses(cells: seq<Cell>, statuses: seq<Status>) returns (row: seq<Cell>)
    requires |statuses| == |cells|
    ensures row == WithStatuses(cells, statuses)
    ensures RowStatuses(row) == statuses
  {
    row := cells;
    for j := 0 to |cells|
      invariant |row| == |cells|
      invariant forall i :: 0 <= i < j ==> row[i] == Cell(cells[i].letter, statuses[i])
      invariant forall i :: j <= i < |cells| ==> row[i] == cells[i]
    {
      row := row[j := row[j].(status := statuses[j])];
    }
  }

  /** The row with every square's status set to `s`. */
  method SetAllStatuses(cells: seq<Cell>, s: Status) returns (row: seq<Cell>)
    ensures row == WithStatus(cells, s)
    ensures RowStatuses(row) == seq(|cells|, _ => s)
  {
    row := cells;
    for j := 0 to |cells|
      invariant |row| == |cells|
      invariant forall i :: 0 <= i < j ==> row[i] == Cell(cells[i].letter, s)
      invariant forall i :: j <= i < |cells| ==> row[i] == cells[i]
    {
      row := row[j := row[j].(status := s)];
    }
  }

  /** The row with every square emptied and untested. */
  method ClearRow(cells: seq<Cell>) returns (row: seq<Cell>)
    ensures row == Cleared(|cells|)
    ensures forall j :: 0 <= j < |row| ==> row[j].letter == "" && row[j].status == NotTested
  {
    row := cells;
    for j := 0 to |cells|
      invariant |row| == |cells|
      invariant forall i :: 0 <= i < j ==> row[i] == Cell("", NotTested)
    {
      row := row[j := Cell("", NotTested)];
    }
  }

  // ---------------------------------------------------------------------------
  // The window
  // ---------------------------------------------------------------------------

  /**
   * The game window with the state it keeps between key presses. The
   * program's globals `dictionary`, `word` and `letters` are kept here too.
   */
  class Screen {
    const dictionary: seq<string>
    var grid: seq<seq<Cell>>
    var activeRow: nat
    var activeColumn: nat
    var state: GameState
    var caption: Caption
    var letters: map<char, Status>
    var word: string

    /** The round the window shows. */
    function Current(): Round
      reads this
    {
      Round(grid, activeRow, activeColumn, state, caption, letters, word)
    }

    predicate Valid()
      reads this
    {
      WordList(dictionary) && Inv(Current())
    }

    /**
     * Start-up: the hints are reset, a word is drawn (`pick` stands for the
     * random draw) and the window is laid out.
     */
    constructor (dictionary: seq<string>, pick: nat)
      requires WordList(dictionary) && pick < |dictionary|
      ensures Valid() && this.dictionary == dictionary
      ensures Current() == NewRound(NewWord(dictionary, pick))
    {
      this.dictionary := dictionary;
      var untested := FreshHints();
      letters := untested;
      word := NewWord(dictionary, pick);
      new;
      InitiateWindow();
      NewRoundInv(word);
    }

    /** Lays out an empty grid with the first row open and the cursor at its start. */
    method InitiateWindow()
      modifies this
      ensures Current() == old(Current()).(grid := FreshGrid(), row := 0, column := 0, state := InGame, caption := Welcome)
    {
      var g := seq(6, _ => seq(5, _ => Cell("", Inactive)));
      for j := 0 to 5
        invariant |g| == 6 && forall r :: 0 <= r < 6 ==> |g[r]| == 5
        invariant forall j' :: 0 <= j' < j ==> g[0][j'] == Cell("", NotTested)
        invariant forall r, j' :: 0 <= r < 6 && 0 <= j' < 5 && (r > 0 || j' >= j) ==> g[r][j'] == Cell("", Inactive)
      {
        g := g[0 := g[0][j := g[0][j].(status := NotTested)]];
      }
      forall r | 0 <= r < 6
        ensures g[r] == FreshGrid()[r]
      {
        assert forall j' :: 0 <= j' < 5 ==> g[r][j'] == FreshGrid()[r][j'];
      }
      grid := g;
      caption := Welcome;
      activeRow := 0;
      activeColumn := 0;
      state := InGame;
    }

    /** The key handler. */
    method OnKeyPress(e: Key, pick: nat)
      requires Valid() && Decoded(e) && pick < |dictionary|
      modifies this
      ensures Valid()
      ensures Current() == Step(dictionary, old(Current()), e, pick)
    {
      ghost var s := Current();
      StepKeepsInv(dictionary, s, e, pick);
      if state == OutOfGame {
        InitiateWindow();
        word := NewWord(dictionary, pick);
        letters := FreshHints();
      } else if e.Letter? && grid[activeRow][activeColumn].letter == "" {
        TypeKey(e.c);
      } else if e.Backspace? {
        EraseKey();
      } else if e.Enter? && grid[activeRow][activeColumn].letter != "" {
        EnterGuard(s);
        EnterSubmits(dictionary, s, pick);
        SubmitRow();
      }
    }

    /** A letter typed into the empty square under the cursor. */
    method TypeKey(c: char)
      requires Valid() && state == InGame && grid[activeRow][activeColumn].letter == ""
      modifies this
      ensures Current() == TypeLetter(old(Current()), c)
    {
      grid := SetLetter(grid, activeRow, activeColumn, [c]);
      if activeColumn <= 3 {
        activeColumn := activeColumn + 1;
      }
      caption := GuessNo(activeRow + 1);
    }

    /** Backspace. */
    method EraseKey()
      requires Valid() && state == InGame
      modifies this
      ensures Current() == EraseLetter(old(Current()))
    {
      if activeColumn >= 1 && grid[activeRow][activeColumn].letter == "" {
        activeColumn := activeColumn - 1;
      }
      grid := SetLetter(grid, activeRow, activeColumn, "");
      caption := GuessNo(activeRow + 1);
    }

    /** Enter on a full row: the guess is read off the row, validated and, if valid, scored. */
    method SubmitRow()
      requires Valid() && state == InGame && RowFull(grid[activeRow])
      modifies this
      ensures Current() == Submit(dictionary, old(Current()))
    {
      ghost var s := Current();
      GuessScorable(s);
      var guess := ReadGuess(grid[activeRow]);
      var validation := GuessValidation(dictionary, guess);
      if validation.Valid? {
        var statuses, correctLetters, newLetters := TestGuess(guess, word, letters);
        ScoreGuess(statuses, correctLetters, newLetters);
      } else if validation == NotInDictionary {
        var cleared := ClearRow(grid[activeRow]);
        grid := grid[activeRow := cleared];
        activeColumn := 0;
        caption := NotInList;
      }
    }

    /** The outcome of `test_guess` is shown: the row scored, the hints replaced and the round decided. */
    method ScoreGuess(statuses: seq<Status>, correctLetters: nat, newLetters: map<char, Status>)
      requires Valid() && |statuses| == 5
      modifies this
      ensures Current() == Score(old(Current()), statuses, correctLetters, newLetters)
    {
      letters := newLetters;
      var scored := SetStatuses(grid[activeRow], statuses);
      grid := grid[activeRow := scored];
      if correctLetters == 5 {
        caption := Won;
        state := OutOfGame;
      } else if activeRow <= 4 {
        activeColumn := 0;
        activeRow := activeRow + 1;
        var nextRow := SetAllStatuses(grid[activeRow], NotTested);
        grid := grid[activeRow := nextRow];
        caption := GuessNo(activeRow + 1);
      } else {
        caption := Lost(UpperStr(word));
        state := OutOfGame;
      }
    }
  }
}
