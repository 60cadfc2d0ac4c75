# Wordle clone: a verified model of the game core

This project models the core of a small Wordle clone written in Python with a
tkinter window (`main.py`). The player has six attempts to guess a
five-letter target word drawn from a word list. A player types letters into
the active row of a 6×5 grid. Backspace erases a letter. Enter submits a full
row. A submitted guess is checked against the list first. If it is in the
list, every square is scored:

- Correct: the letter matches the target at that position;
- WrongPlace: the letter is elsewhere in the target and still has an unused copy;
- Incorrect: otherwise.

A keyboard hint map keeps, for every letter, the best status the player has
earned for it so far. After a win or a loss, the next key press starts a new
round.

The Dafny modules follow the program's parts:

- `Text` (`text.dfy`): ASCII upper and lower case, as `str.upper` and
  `str.lower` act on the letters the game uses.
- `Statuses` (`statuses.dfy`): the square statuses and their order.
- `Hints` (`hints.dfy`): the keyboard hint map: its reset and a reference
  definition of how a scored guess raises it.
- `Evaluator` (`evaluator.dfy`): `test_guess`. It is specified round by round
  by `ExactPass`/`PlacePass` and implemented by the loop method `TestGuess`.
  It is proved equal to a closed-form verdict (`Reference`) and proved never
  to credit a letter more often than the target holds it.
- `Dictionary` (`dictionary.dfy`): `check_dictionary`, `guess_validation` and
  `new_word`.
- `Game` (`game.dfy`): the window's round state (`Round`) and its invariant
  (`Inv`). `Step` is the specification of `onKeyPress`. The class `Screen`
  holds the window's fields and the game's globals, and its methods update
  them in place as `onKeyPress` and `initiate_window` do.

## Model

| member | source | states |
|---|---|---|
| Text.CaseRoundTrip | main.py:171 | lower-casing an upper-case letter and upper-casing it back gives the letter again, so the hint key of a typed letter is that letter |
| Text.LowerStrIdempotent | main.py:151 | lower-casing twice is lower-casing once |
| Text.LowerStr | main.py:171 | `s.lower()`: every upper-case ASCII letter mapped to its lower-case letter, every other character kept; same length |
| Text.UpperStr | main.py:108 | `s.upper()`: every lower-case ASCII letter mapped to its upper-case letter, every other character kept; same length |
| Statuses.Max | main.py:188-198 | the larger of two statuses in the order INACTIVE < NOT_TESTED < INCORRECT < WRONG_PLACE < CORRECT, and it is one of the two |
| Hints.AlphabetIsUpper | main.py:61 | the keyboard alphabet has 26 characters, all upper-case letters |
| Hints.UpperInAlphabet | main.py:61 | every upper-case ASCII letter is on the keyboard, so every typed letter has a hint |
| Hints.FreshHints | main.py:61-65 | the reset hint map has exactly the 26 keyboard letters as keys, each NOT_TESTED |
| Hints.BestBounds | main.py:180-198 | the best verdict given to the letter `k` among the first `n` positions is at least every such verdict, and is one of them unless there is none |
| Hints.Merge | main.py:180-198 | the hint map raised by a scored guess keeps the same keys |
| Hints.MergeMeaning | main.py:180-198 | a merged hint is never lower than before, at least every verdict earned by its letter, and a changed hint equals one of those verdicts |
| Hints.MergeNothingScored | main.py:180-198 | a guess with no verdicts leaves the hints alone |
| Hints.MergeRaise | main.py:188-198 | giving one more position the verdict `s` raises that letter's hint to the larger of it and `s`, and changes no other key |
| Evaluator.RemoveFirst | main.py:182 | `replace(c, "", 1)`: the result is the input when `c` is absent, and as a multiset it is the input less one `c` |
| Evaluator.RemoveFirstSplits | main.py:190 | the removal takes out exactly the first occurrence and keeps the rest in order |
| Evaluator.ExactStep | main.py:178-182 | one round `i` of the first loop: on an exact match, square `i` becomes CORRECT, the hint of its letter becomes CORRECT, the count goes up by one and one copy of the letter leaves `temp_word`; otherwise nothing changes; the hint keys stay the same |
| Evaluator.MarkIncorrect | main.py:193-198 | the guarded INCORRECT write: a hint that is neither CORRECT nor WRONG_PLACE becomes INCORRECT; the keys stay the same |
| Evaluator.PlaceStep | main.py:184-198 | one round `i` of the second loop: a letter not in the target is INCORRECT; a CORRECT square is left alone; otherwise WRONG_PLACE while `temp_word` still has the letter (using one copy and raising a non-CORRECT hint to WRONG_PLACE), else INCORRECT; the hint keys stay the same |
| Evaluator.ExactPass | main.py:172-182 | the state after the first `k` rounds of the first loop, starting from five NOT_TESTED squares, a count of 0 and `temp_word` equal to the target |
| Evaluator.PlacePass | main.py:183-198 | the state after the whole first loop and the first `k` rounds of the second |
| Evaluator.Evaluate | main.py:170-200 | `test_guess` on the lower-cased guess: both loops run to the end; five statuses, and the hint keys stay the same |
| Evaluator.NextTargetLetterLeft | main.py:178-182 | while the first loop has used up only letters of earlier target positions, the target letter at the current position is still in `temp_word` |
| Evaluator.ExactPassFacts | main.py:177-182 | after `k` rounds of the first loop: the exact matches so far are CORRECT and nothing else is scored; `temp_word` is the target less the matched letters; `correct_letters` is the number of CORRECT marks |
| Evaluator.UseUp | main.py:186-190 | a letter is still in `temp_word` exactly when fewer copies of it were used up than the target has spare |
| Evaluator.PlacePassFacts | main.py:183-198 | after `k` rounds of the second loop: the first `k` positions carry their `Reference` verdict, and `temp_word` holds the copies that neither an exact match nor an earlier miss used up |
| Evaluator.CreditedRaise | main.py:187-192 | marking an unmarked position adds its letter to the letters used up exactly when the mark is CORRECT or WRONG_PLACE |
| Evaluator.ExactPassConserves | main.py:177-182 | the letters used up by the marks plus `temp_word` make up the target, after every round of the first loop |
| Evaluator.ExactStepConserves | main.py:178-182 | one round of the first loop keeps that balance |
| Evaluator.PlaceStepConserves | main.py:184-198 | one round of the second loop keeps that balance |
| Evaluator.PlacePassConserves | main.py:183-198 | the balance holds after every round of the second loop |
| Evaluator.ExactPassMerges | main.py:177-182 | after each round of the first loop, the hints are the old hints merged with the marks made so far |
| Evaluator.PlaceStepMerges | main.py:184-198 | the guarded hint updates of the second loop merge the new mark into the hints |
| Evaluator.PlacePassMerges | main.py:183-198 | after each round of the second loop, the hints are the old hints merged with the marks made so far |
| Evaluator.EvaluateIsReference | main.py:170-200 | every position gets CORRECT, WRONG_PLACE or INCORRECT, and it is the closed-form reference verdict |
| Evaluator.EvaluateCorrect | main.py:177-181 | a position is CORRECT if and only if its lower-cased guess letter equals the target letter there, and `correct_letters` counts the CORRECT positions |
| Evaluator.EvaluateNeverOvercredits | main.py:170-200 | for each letter, the positions marked CORRECT or WRONG_PLACE number at most the copies the target has |
| Evaluator.EvaluateWrongPlace | main.py:184-198 | WRONG_PLACE only on a mismatch whose letter is in the target; a letter absent from the target is INCORRECT |
| Evaluator.EvaluateRaisesHints | main.py:180-198 | the new hints are the old ones merged with the verdicts; no hint goes down, and letters not in the guess keep their hint |
| Evaluator.EvaluateWins | main.py:177-181 | five exact matches if and only if the lower-cased guess is the target, and then every position is CORRECT |
| Evaluator.TestGuess | main.py:170-200 | the two loops compute the statuses, the count and the updated hints of `Evaluate`, with all the properties above |
| Evaluator.SpeedAgainstErase | main.py:183-198 | guessing "speed" for "erase": WRONG_PLACE, INCORRECT, WRONG_PLACE, WRONG_PLACE, INCORRECT; the second `e` still finds a spare copy and the `d` does not |
| Evaluator.EagleAgainstAlgae | main.py:177-198 | guessing "eagle" for "algae": the exact matches at positions 2 and 4 use up their copies, so the first `e` is INCORRECT and the `a` and the `l` are WRONG_PLACE |
| Dictionary.CheckDictionaryIgnoresCase | main.py:150-153 | the lookup is into the lower-cased guess, so it ignores the guess's case, and it holds exactly when some list entry equals the lower-cased guess |
| Dictionary.CheckDictionary | main.py:150-153 | `check_dictionary`: true exactly when some list entry equals the lower-cased guess |
| Dictionary.GuessValidation | main.py:156-167 | TOO_LONG if and only if longer than five; TOO_SHORT if and only if shorter; NOT_IN_DICTIONARY if and only if five long and not in the list; VALID if and only if five long and in the list |
| Dictionary.ValidationIgnoresCase | main.py:156-167 | validation gives the same verdict for the guess and its lower-cased form |
| Dictionary.NewWordAsWritten | main.py:230-233 | the draw `randrange(len(dictionary) - 1)` as written: the word is always one of all but the last entry |
| Dictionary.AsWrittenSkipsLastWord | main.py:231 | when the last entry does not occur earlier, the draw as written never yields it |
| Dictionary.AsWrittenNeverDrawsLast | main.py:231 | for the list ["apple", "grape"] the draw as written always yields "apple" and never "grape" |
| Dictionary.NewWord | main.py:230-233 | the corrected draw: the word is in the list |
| Dictionary.EveryWordCanBeDrawn | main.py:230-233 | every word of the list is drawn for some index |
| Game.RowWord | main.py:85-87 | the letters of a row of single letters, concatenated: as long as the row, with the letter of each square in its place |
| Game.Inv | main.py:55-132 | the round invariant: a 6×5 grid; submitted rows full and scored; rows not reached yet empty and INACTIVE; the cursor invariant on the active row; the active row NOT_TESTED during a round and full and scored once it is over; the hint keys are the 26 keyboard letters |
| Game.FreshGrid | main.py:121-129 | six rows of five empty squares, row 0 NOT_TESTED and the others INACTIVE |
| Game.NewRound | main.py:58-65 | the round after `initiate_window`, the new word and the hint reset: the fresh grid, cursor at row 0 and column 0, in game, the welcome caption, every hint NOT_TESTED |
| Game.TypeLetter | main.py:69-75 | the letter goes into the square under the cursor, the column moves right unless it is the last, and the caption becomes "Guess #n"; the grid keeps its shape |
| Game.EraseLetter | main.py:77-82 | the cursor steps back over an empty square if it can, the square under it is emptied, and the caption becomes "Guess #n"; the grid keeps its shape |
| Game.Score | main.py:91-109 | a valid guess scored: the row takes the statuses and the window the new hints; won on five exact matches, else the next row opens when the row is 0 to 4, else lost with the upper-cased word; the grid keeps its shape |
| Game.Submit | main.py:84-117 | Enter on a full row: the guess read off the row is validated; a valid guess is scored by `test_guess`, a word not in the list empties the row, and any other verdict changes nothing; the grid keeps its shape |
| Game.Step | main.py:55-118 | `onKeyPress`: after a finished round any key starts a new one; otherwise a letter on an empty square types, backspace erases, Enter on a filled square submits, and every other key changes nothing; the grid keeps its shape |
| Game.GuessScorable | main.py:84-90 | the guess read off a full active row is five upper-case letters, each with a hint key |
| Game.EnterGuard | main.py:84 | the Enter guard "square under the cursor not empty" holds if and only if the active row is full |
| Game.NewRoundInv | main.py:120-132 | a new round satisfies the round invariant |
| Game.TypeKeepsInv | main.py:69-75 | typing keeps the round invariant, the cursor invariant among it |
| Game.EraseKeepsInv | main.py:77-82 | backspace keeps the round invariant |
| Game.ScoredRowFacts | main.py:92-95 | scoring the active row keeps its letters, leaves the other rows alone and makes all rows up to it full and scored |
| Game.EndKeepsInv | main.py:97-99 | winning, or losing on the last row, keeps the invariant |
| Game.AdvanceKeepsInv | main.py:100-106 | moving on to the next row keeps the invariant |
| Game.ValidKeepsInv | main.py:89-109 | every outcome of a valid guess keeps the invariant |
| Game.NotInListKeepsInv | main.py:110-117 | rejecting a word not in the list keeps the invariant |
| Game.SubmitKeepsInv | main.py:84-118 | Enter on a full row keeps the invariant |
| Game.StepKeepsInv | main.py:55-118 | every key press keeps the round invariant, whose cursor part is: squares left of the column are filled, squares right of it are empty, and the square at the column is filled only in the last column |
| Game.EnterIncomplete | main.py:84 | Enter on a row that is not full changes nothing |
| Game.EnterNotInList | main.py:110-117 | a full row whose word is not in the list is emptied and set back to NOT_TESTED; the cursor returns to the first column of the same row; the caption says the word is not in the list; the hints and the other rows stay as they were |
| Game.EnterSubmits | main.py:84-88 | Enter on a full row of a running round submits the row's guess |
| Game.SubmitValidScores | main.py:89-95 | a valid guess gives the active row its `test_guess` statuses and the window the updated hints |
| Game.SubmitInvalidHints | main.py:110-117 | a guess that is not valid leaves the hints alone |
| Game.EnterScores | main.py:89-95 | a valid guess scores every square of the row with the reference verdict, and the hints become the old hints merged with the row's verdicts, none lower than before |
| Game.EnterWins | main.py:97-99 | a valid guess ends the round as won if and only if it is the target word; the round is then over and every square of the row is CORRECT |
| Game.EnterAdvances | main.py:100-106 | a valid wrong guess on one of the first five rows opens the next row with the cursor at its start and the caption "Guess #n" for it |
| Game.EnterLoses | main.py:107-109 | a valid wrong guess on the last row ends the round as lost, with the upper-cased target in the caption |
| Game.ResetOnAnyKey | main.py:58-66 | once a round is over, every key has the same effect: a new round on a word of the list, with an empty grid, row 0, column 0, the welcome caption and every hint NOT_TESTED |
| Game.TypeFillsFirstEmpty | main.py:69-75 | a letter key fills the first empty square of the active row with the letter and changes neither the row nor the hints |
| Game.EraseClearsLast | main.py:77-82 | backspace empties the square at the new cursor and changes no other square; that square was filled, or the whole row was empty and the cursor is at column 0; every square after it is empty, so it is the last filled one; row, hints, state and word stay as they were |
| Game.TypeOnFullRow | main.py:69 | a letter key on a full row changes nothing, because the square under the cursor is filled |
| Game.TypeThenErase | main.py:69-82 | typing a letter and then pressing backspace gives back the grid and the cursor |
| Game.StepNeverLowersHints | main.py:55-118 | during a round no key press lowers a hint, and only Enter changes any |
| Game.ReadGuess | main.py:85-87 | the loop reads the row's guess |
| Game.SetStatuses | main.py:92-95 | the loop gives each square its status |
| Game.SetAllStatuses | main.py:104-105 | the loop sets every square of the next row to NOT_TESTED |
| Game.ClearRow | main.py:111-113 | the loop empties every square and sets it to NOT_TESTED |
| Game.Screen.constructor | main.py:240-246 | start-up resets the hints, draws a word and lays out the window; the result is the new round on that word and satisfies the invariant |
| Game.Screen.InitiateWindow | main.py:120-132 | a fresh grid with row 0 NOT_TESTED and the others INACTIVE; the welcome caption; the cursor at row 0, column 0; the round in progress; the hints and the word are unchanged |
| Game.Screen.OnKeyPress | main.py:55-118 | the handler changes the window exactly as `Step` says and keeps the invariant |
| Game.Screen.TypeKey | main.py:69-75 | the letter branch of the handler, as `TypeLetter` |
| Game.Screen.EraseKey | main.py:77-82 | the backspace branch, as `EraseLetter` |
| Game.Screen.SubmitRow | main.py:85-117 | the Enter branch on a full row, as `Submit` |
| Game.Screen.ScoreGuess | main.py:91-109 | shows the outcome of `test_guess` as `Score` says |

## Left out

- Drawing (`draw_grid`, `get_letter_color` and the tkinter window set-up) is not modelled; the model keeps only the state those functions read.
- `read_args`, `read_list`, `run_game`'s file reading and `mainloop`, and the console game `process_guess`/`print_result`, are not modelled. They handle input and output and sit outside the window's state machine.
- The `print` calls that log keys and validation messages are left out; they change no state.
- The random draw becomes a parameter, `pick`: the index of the word to use.
- Key events arrive decoded as `Key`. `Letter` stands for a keycode from 65 to 90 whose character is alphabetic, and it carries the upper-cased letter. Keycode decoding and `unidecode` are not modelled. So a square always holds one ASCII letter, and the model never meets a guess of another length. `unidecode` can turn some accented characters into several letters; only with such a key can the source reach TOO_LONG from the window.
- Case conversion covers ASCII letters only. Python's `str.lower`/`str.upper` also map other Unicode letters, which the game never puts in a guess (see the previous line).
- Game.WordList: every list entry is assumed to be five letters long, because `test_guess` indexes five positions of the target. The source does not check this. A shorter entry raises an IndexError there. A longer entry is scored on its first five positions, while `word.count` and `temp_word` see all of it, so a guess matching its first five letters wins (main.py:97). The model does not cover such entries.
- Evaluator.TestGuess: requires a five-letter guess and target, and a hint key for every guess letter. In the source, a guess or target shorter than five letters raises an IndexError. A longer one is scored on its first five positions. A letter whose hint key is missing raises a KeyError only where the second loop reads that key (main.py:188, 193, 197); at an exact match the write at main.py:180 creates the key. The window always holds all 26 keys, so it never meets these cases.
- A `Square` object is modelled as a value (`Cell`) inside a `seq` of rows that the methods reassign. The source mutates the squares in place, but no two cells of the grid are the same object, so no aliasing is lost.
- The globals `dictionary`, `word` and `letters` are fields of `Screen`, since the window is their only writer once the game runs.

## Findings

| source | as written | input that shows it | evidently intended | confidence | as-written member | corrected member |
|---|---|---|---|---|---|---|
| main.py:231 | `randrange(len(dictionary) - 1)` draws an index from 0 to `len - 2`, so the last word of the list is never the target, and a one-word list makes `randrange(0)` fail | the list ["apple", "grape"]: only "apple" can be drawn | a draw over the whole list, `randrange(len(dictionary))` | not executed | Dictionary.AsWrittenNeverDrawsLast | Dictionary.EveryWordCanBeDrawn |

The rest of the model (`Game.Step`, `Game.Screen`) uses the corrected draw `Dictionary.NewWord`.
