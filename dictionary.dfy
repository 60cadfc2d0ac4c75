/**
 * The word list: checking a guess against it (`check_dictionary`,
 * `guess_validation`) and drawing the target word from it (`new_word`).
 */
module Dictionary {
  import opened Text

  /** The outcome of validating a guess. */
  datatype ValidationState = TooLong | TooShort | NotInDictionary | Valid

  /** `check_dictionary`: only the guess is lower-cased, the list is taken as it is. */
  function CheckDictionary(dictionary: seq<string>, guess: string): (r: bool)
    ensures r <==> exists i :: 0 <= i < |dictionary| && dictionary[i] == LowerStr(guess)
  {
    LowerStr(guess) in dictionary
  }

  /** The dictionary check ignores the case of the guess. */
  lemma CheckDictionaryIgnoresCase(dictionary: seq<string>, guess: string)
    ensures CheckDictionary(dictionary, guess) == CheckDictionary(dictionary, LowerStr(guess))
    ensures CheckDictionary(dictionary, guess) <==> exists i :: 0 <= i < |dictionary| && dictionary[i] == LowerStr(guess)
  {
    LowerStrIdempotent(guess);
  }

  /** `guess_validation`: the length is checked before the dictionary, too long before too short. */
  function GuessValidation(dictionary: seq<string>, guess: string): (r: ValidationState)
    ensures r == TooLong <==> |guess| > 5
    ensures r == TooShort <==> |guess| < 5
    ensures r == NotInDictionary <==> |guess| == 5 && LowerStr(guess) !in dictionary
    ensures r == Valid <==> |guess| == 5 && LowerStr(guess) in dictionary
  {
    if |guess| > 5 then TooLong
    else if |guess| < 5 then TooShort
    else if !CheckDictionary(dictionary, guess) then NotInDictionary
    else Valid
  }

  /** Validation does not depend on the case of the guess. */
  lemma ValidationIgnoresCase(dictionary: seq<string>, guess: string)
    ensures GuessValidation(dictionary, guess) == GuessValidation(dictionary, LowerStr(guess))
  {
    LowerStrIdempotent(guess);
  }

  /**
   * `new_word` as written: `randrange(len(dictionary) - 1)` draws an index in
   * 0 .. len - 2, so it needs at least two words and never draws the last one.
   */
  function NewWordAsWritten(dictionary: seq<string>, k: nat): (w: string)
    requires k < |dictionary| - 1
    ensures w in dictionary[..|dictionary| - 1]
  {
    dictionary[k]
  }

  /** As written, a last word that occurs nowhere else in the list is never drawn. */
  lemma AsWrittenSkipsLastWord(dictionary: seq<string>, k: nat)
    requires k < |dictionary| - 1
    requires dictionary[|dictionary| - 1] !in dictionary[..|dictionary| - 1]
    ensures NewWordAsWritten(dictionary, k) != dictionary[|dictionary| - 1]
  {
  }

  /** With the list ["apple", "grape"] every draw as written is "apple". */
  lemma AsWrittenNeverDrawsLast(k: nat)
    requires k < |["apple", "grape"]| - 1
    ensures NewWordAsWritten(["apple", "grape"], k) == "apple"
    ensures NewWordAsWritten(["apple", "grape"], k) != "grape"
  {
  }

  /** `new_word` with the draw over the whole list; `k` stands for the random index. */
  function NewWord(dictionary: seq<string>, k: nat): (w: string)
    requires k < |dictionary|
    ensures w in dictionary
  {
    dictionary[k]
  }

  /** Every word of the list, the last one included, can be the target. */
  lemma EveryWordCanBeDrawn(dictionary: seq<string>, w: string)
    requires w in dictionary
    ensures exists k: nat :: k < |dictionary| && NewWord(dictionary, k) == w
  {
    var k :| 0 <= k < |dictionary| && dictionary[k] == w;
    assert NewWord(dictionary, k) == w;
  }
}
