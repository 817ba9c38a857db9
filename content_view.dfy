/**
  The game screen's state and the functions of `ContentView` that change
  it, as a class whose fields are the view's `@State` variables. Every
  method that changes state is tied to the matching transition of `Rules`,
  and keeps the invariant `Valid()`.
 */
module WordScramble {
  import opened SwiftText
  import opened Rules

  class ContentView {
    var usedWords: seq<string>
    var rootWord: string
    var newWord: string

    var errorTitle: string
    var errorMessage: string
    var showingError: bool

    var score: int

    /** The dictionary `isReal` consults: `UITextChecker` for the language "en". */
    const isKnownWord: string -> bool

    /** The fields as one value. */
    function State(): GameState
      reads this
    {
      GameState(usedWords, rootWord, newWord, errorTitle, errorMessage, showingError, score)
    }

    predicate Valid()
      reads this
    {
      Inv(State(), isKnownWord)
    }

    /** The view with its fields at their declared initial values. */
    constructor (isKnownWord: string -> bool)
      ensures State() == Initial && this.isKnownWord == isKnownWord
      ensures Valid()
    {
      usedWords, rootWord, newWord := [], "", "";
      errorTitle, errorMessage, showingError := "", "", false;
      score := 0;
      this.isKnownWord := isKnownWord;
    }

    /** Runs when the player submits the text field. Each `guard … else
        { …; return }` of the source is a branch of the `if` chain below. */
    method AddNewWord()
      requires Valid()
      modifies this
      ensures Valid()
      ensures State() == Submit(old(State()), isKnownWord)
    {
      ghost var before := State();
      SubmitPreservesInv(before, isKnownWord);
      var answer := Normalize(newWord);
      if |answer| > 0 {
        if !(|answer| > 2) {
          WordError(TooShortTitle, TooShortMessage);
        } else {
          var possible := IsPossible(answer);
          if !possible {
            WordError(NotPossibleTitle, NotPossiblePrefix + rootWord);
          } else if !IsOriginal(answer) {
            WordError(AlreadyUsedTitle, AlreadyUsedMessage);
          } else if !IsReal(answer) {
            WordError(NotRealTitle, NotRealMessage);
          } else {
            var _ := CalculateScore(answer);
            usedWords := [answer] + usedWords;
            newWord := "";
          }
        }
      }
      assert State() == Submit(before, isKnownWord);
    }

    /** Picks a root word from the text of `start.txt` (the choice among its
        lines being `pick`) and clears the list of words; the score stays. */
    method StartGame(startWords: string, pick: nat)
      requires Valid()
      modifies this
      ensures Valid()
      ensures State() == Rules.StartGame(old(State()), startWords, pick)
    {
      StartGameKeepsScore(State(), startWords, pick, isKnownWord);
      rootWord := ChooseRootWord(startWords, pick);
      usedWords := [];
    }

    /** The word is not yet in the list. */
    function IsOriginal(word: string): (r: bool)
      reads this
      ensures r <==> forall i | 0 <= i < |usedWords| :: usedWords[i] != word
    {
      word !in usedWords
    }

    /** Takes the letters of `word` one by one out of a copy of the root
        word, and fails at the first letter the copy no longer has. */
    method IsPossible(word: string) returns (possible: bool)
      ensures possible <==> IsSpellable(word, rootWord)
    {
      var tempWord := rootWord;
      for i := 0 to |word|
        invariant |tempWord| + i == |rootWord|
        invariant multiset(word[..i]) + multiset(tempWord) == multiset(rootWord)
      {
        var letter := word[i];
        match FirstIndex(tempWord, letter)
        case Some(pos) =>
          assert word[..i + 1] == word[..i] + [letter];
          tempWord := RemoveAt(tempWord, pos);
        case None =>
          assert word == word[..i] + [letter] + word[i + 1..];
          assert multiset(word)[letter] > multiset(rootWord)[letter];
          return false;
      }
      assert word[..|word|] == word;
      return true;
    }

    /** The dictionary knows the word. */
    function IsReal(word: string): bool {
      isKnownWord(word)
    }

    /** Raises the alert with the given title and message. */
    method WordError(title: string, message: string)
      requires Valid()
      modifies this
      ensures Valid()
      ensures State() == WithError(old(State()), title, message)
    {
      errorTitle := title;
      errorMessage := message;
      showingError := true;
    }

    /** Adds the length of `word` to the score and returns the new score. */
    method CalculateScore(word: string) returns (total: int)
      requires Valid()
      modifies this
      ensures Valid()
      ensures score == old(score) + |word| && total == score
      ensures State() == old(State()).(score := old(score) + |word|)
    {
      var count := |word|;
      score := score + count;
      return score;
    }

    /** Starts a new round as `StartGame` does and sets the score to 0. */
    method RestartGame(startWords: string, pick: nat)
      requires Valid()
      modifies this
      ensures Valid()
      ensures State() == Rules.RestartGame(old(State()), startWords, pick)
    {
      RestartGameZeroesScore(State(), startWords, pick, isKnownWord);
      StartGame(startWords, pick);
      score := 0;
    }
  }
}
