/**
  The game rules of `ContentView` as functions on a value of its state:
  the order of the four checks an answer goes through, the state after an
  answer is submitted, after a new word is started and after a restart,
  and what stays true of the state across all of them.
 */
module Rules {
  import opened SwiftText

  /** The seven `@State` fields of `ContentView`. */
  datatype GameState = GameState(
    usedWords: seq<string>,
    rootWord: string,
    newWord: string,
    errorTitle: string,
    errorMessage: string,
    showingError: bool,
    score: int)

  /** The fields as the view declares them, before `startGame` first runs. */
  const Initial := GameState([], "", "", "", "", false, 0)

  /** Why an answer is turned down, one reason per guard of `addNewWord`. */
  datatype Reason = TooShort | NotPossible | AlreadyUsed | NotReal

  /** What `addNewWord` makes of a normalised answer. */
  datatype Verdict = Ignored | Rejected(reason: Reason) | Accepted(word: string, scoreDelta: nat)

  /** `word` can be spelled from `rootWord`: no letter is needed more often
      than `rootWord` has it. This is what `isPossible` decides. */
  predicate IsSpellable(word: string, rootWord: string) {
    multiset(word) <= multiset(rootWord)
  }

  /** The guards of `addNewWord` in their order: a blank answer is ignored,
      then length, spelling, originality and the dictionary are checked and
      the first that fails decides. */
  function Validate(answer: string, rootWord: string, usedWords: seq<string>, isReal: string -> bool): Verdict {
    if |answer| == 0 then Ignored
    else if !(|answer| > 2) then Rejected(TooShort)
    else if !IsSpellable(answer, rootWord) then Rejected(NotPossible)
    else if answer in usedWords then Rejected(AlreadyUsed)
    else if !isReal(answer) then Rejected(NotReal)
    else Accepted(answer, |answer|)
  }

  /** The alert texts `addNewWord` passes to `wordError`. */
  const TooShortTitle := "Word too short"
  const TooShortMessage := "Word can't be shorter than 3 letters"
  const NotPossibleTitle := "Word not possible."
  const NotPossiblePrefix := "You can't spell that word from "
  const AlreadyUsedTitle := "Word used already!"
  const AlreadyUsedMessage := "Try again."
  const NotRealTitle := "That's not a real word, lol."
  const NotRealMessage := "You can't just make them up boo"

  function ErrorTitle(reason: Reason): string {
    match reason
    case TooShort => TooShortTitle
    case NotPossible => NotPossibleTitle
    case AlreadyUsed => AlreadyUsedTitle
    case NotReal => NotRealTitle
  }

  function ErrorMessage(reason: Reason, rootWord: string): string {
    match reason
    case TooShort => TooShortMessage
    case NotPossible => NotPossiblePrefix + rootWord
    case AlreadyUsed => AlreadyUsedMessage
    case NotReal => NotRealMessage
  }

  /** The state after `wordError(title:message:)`. */
  function WithError(s: GameState, title: string, message: string): GameState {
    s.(errorTitle := title, errorMessage := message, showingError := true)
  }

  /** The state after `addNewWord`, for the dictionary `isReal`. */
  function Submit(s: GameState, isReal: string -> bool): GameState {
    var answer := Normalize(s.newWord);
    match Validate(answer, s.rootWord, s.usedWords, isReal)
    case Ignored => s
    case Rejected(reason) => WithError(s, ErrorTitle(reason), ErrorMessage(reason, s.rootWord))
    case Accepted(word, delta) => s.(score := s.score + delta, usedWords := [word] + s.usedWords, newWord := "")
  }

  /** `randomElement()`, the random choice being the parameter `pick`. */
  function RandomElement(xs: seq<string>, pick: nat): (r: Option<string>)
    ensures r.None? <==> xs == []
    ensures r.Some? ==> r.value in xs
  {
    if xs == [] then None else Some(xs[pick % |xs|])
  }

  /** The root word `startGame` takes from the text of `start.txt`:
      a random line, or "silkworm" if there is none. */
  function ChooseRootWord(startWords: string, pick: nat): string {
    match RandomElement(Lines(startWords), pick)
    case Some(w) => w
    case None => "silkworm"
  }

  /** The state after `startGame`, given the text of `start.txt`. */
  function StartGame(s: GameState, startWords: string, pick: nat): GameState {
    s.(rootWord := ChooseRootWord(startWords, pick), usedWords := [])
  }

  /** The state after `restartGame`. */
  function RestartGame(s: GameState, startWords: string, pick: nat): GameState {
    StartGame(s, startWords, pick).(score := 0)
  }

  /** The player types each answer in turn into the text field and submits it. */
  function Play(s: GameState, answers: seq<string>, isReal: string -> bool): GameState
    decreases |answers|
  {
    if answers == [] then s
    else Play(Submit(s.(newWord := answers[0]), isReal), answers[1..], isReal)
  }

  /** No word occurs twice in `ws`. */
  predicate NoDuplicates(ws: seq<string>)
    decreases |ws|
  {
    ws == [] || (ws[0] !in ws[1..] && NoDuplicates(ws[1..]))
  }

  /** The number of letters in all of `ws`. */
  function TotalLength(ws: seq<string>): nat
    decreases |ws|
  {
    if ws == [] then 0 else |ws[0]| + TotalLength(ws[1..])
  }

  /** A word that can stand in `usedWords`: every guard of `addNewWord` lets it through. */
  predicate Admissible(w: string, rootWord: string, isReal: string -> bool) {
    |w| > 2 && IsSpellable(w, rootWord) && isReal(w) && IsNormalized(w)
  }

  /** Every word of `ws` is admissible for `rootWord`. */
  predicate AllAdmissible(ws: seq<string>, rootWord: string, isReal: string -> bool)
    decreases |ws|
  {
    ws == [] || (Admissible(ws[0], rootWord, isReal) && AllAdmissible(ws[1..], rootWord, isReal))
  }

  /** What holds of the state between any two operations. */
  predicate Inv(s: GameState, isReal: string -> bool) {
    && NoDuplicates(s.usedWords)
    && AllAdmissible(s.usedWords, s.rootWord, isReal)
    && s.score >= TotalLength(s.usedWords)
  }

  // ---------------------------------------------------------------------
  // The checks

  /** Each verdict in closed form: exactly which checks passed and which one
      failed first. */
  lemma ValidateFirstFailure(answer: string, rootWord: string, usedWords: seq<string>, isReal: string -> bool)
    ensures var v := Validate(answer, rootWord, usedWords, isReal);
      && (v == Ignored <==> answer == [])
      && (v == Rejected(TooShort) <==> 0 < |answer| < 3)
      && (v == Rejected(NotPossible) <==> |answer| >= 3 && !IsSpellable(answer, rootWord))
      && (v == Rejected(AlreadyUsed) <==> |answer| >= 3 && IsSpellable(answer, rootWord) && answer in usedWords)
      && (v == Rejected(NotReal) <==>
            |answer| >= 3 && IsSpellable(answer, rootWord) && answer !in usedWords && !isReal(answer))
      && (v.Accepted? <==>
            |answer| >= 3 && IsSpellable(answer, rootWord) && answer !in usedWords && isReal(answer))
      && (v.Accepted? ==> v.word == answer && v.scoreDelta == |answer|)
  {
  }

  /** Spelling respects how often a letter occurs: "tree" has two e's, so
      "eee" cannot be spelled from it, while "silk" can be spelled from
      "silkworm". */
  lemma SpellingExamples()
    ensures !IsSpellable("eee", "tree")
    ensures IsSpellable("silk", "silkworm")
  {
    assert multiset("eee")['e'] == 3;
    assert "tree" == "tr" + "ee";
    assert multiset("tree")['e'] == 2;
    assert "silkworm" == "silk" + "worm";
  }

  /** A word that can be spelled is no longer than the root word. */
  lemma {:induction false} SpellableIsNoLonger(word: string, rootWord: string)
    requires IsSpellable(word, rootWord)
    ensures |word| <= |rootWord|
  {
    assert |multiset(word)| <= |multiset(rootWord)| by {
      var extra := multiset(rootWord) - multiset(word);
      assert multiset(rootWord) == multiset(word) + extra;
    }
  }

  /** Nothing stops the root word itself from being accepted, once, if it is
      long enough and in the dictionary. */
  lemma RootWordIsAccepted(s: GameState, isReal: string -> bool)
    requires IsNormalized(s.rootWord) && |s.rootWord| > 2
    requires isReal(s.rootWord) && s.rootWord !in s.usedWords
    ensures Submit(s.(newWord := s.rootWord), isReal).usedWords == [s.rootWord] + s.usedWords
  {
    NormalizeFixesNormalized(s.rootWord);
  }

  // ---------------------------------------------------------------------
  // addNewWord

  /** An answer that is blank once trimmed changes nothing and shows no error. */
  lemma SubmitIgnoresBlank(s: GameState, isReal: string -> bool)
    requires forall i | 0 <= i < |s.newWord| :: IsWhitespace(s.newWord[i])
    ensures Submit(s, isReal) == s
  {
    NormalizeSpec(s.newWord);
  }

  /** A rejected answer raises the error for the first failed check and
      leaves the words, the score, the text field and the root word alone. */
  lemma SubmitRejects(s: GameState, isReal: string -> bool)
    requires Validate(Normalize(s.newWord), s.rootWord, s.usedWords, isReal).Rejected?
    ensures var reason := Validate(Normalize(s.newWord), s.rootWord, s.usedWords, isReal).reason;
      var t := Submit(s, isReal);
      && t.showingError
      && t.errorTitle == ErrorTitle(reason)
      && t.errorMessage == ErrorMessage(reason, s.rootWord)
      && t.usedWords == s.usedWords && t.score == s.score
      && t.newWord == s.newWord && t.rootWord == s.rootWord
  {
  }

  /** An accepted answer goes to the front of the list, the rest of which is
      the old list; the score grows by its length; the text field is cleared;
      nothing else changes. */
  lemma SubmitAccepts(s: GameState, isReal: string -> bool)
    requires Validate(Normalize(s.newWord), s.rootWord, s.usedWords, isReal).Accepted?
    ensures var answer := Normalize(s.newWord);
      var t := Submit(s, isReal);
      && |t.usedWords| == |s.usedWords| + 1
      && t.usedWords[0] == answer && t.usedWords[1..] == s.usedWords
      && t.score == s.score + |answer|
      && t.newWord == ""
      && t.rootWord == s.rootWord
      && t.errorTitle == s.errorTitle && t.errorMessage == s.errorMessage
      && t.showingError == s.showingError
  {
  }

  /** `addNewWord` never lowers the score. */
  lemma SubmitScoreNeverDecreases(s: GameState, isReal: string -> bool)
    ensures Submit(s, isReal).score >= s.score
  {
  }

  /** Submitting an accepted answer a second time is turned down as already used. */
  lemma SubmitTwiceIsAlreadyUsed(s: GameState, isReal: string -> bool)
    requires Validate(Normalize(s.newWord), s.rootWord, s.usedWords, isReal).Accepted?
    ensures var t := Submit(s, isReal);
      var u := Submit(t.(newWord := s.newWord), isReal);
      && u.errorTitle == ErrorTitle(AlreadyUsed)
      && u.showingError
      && u.usedWords == t.usedWords && u.score == t.score
  {
  }

  /** `addNewWord` keeps the invariant: the list stays free of duplicates and
      holds only words that pass every check against the current root word,
      and the score covers at least the letters of the list. It keeps the
      root word, and the list either stays as it was or gains one word at
      the front, whose letters the score gains too. */
  lemma {:induction false} SubmitPreservesInv(s: GameState, isReal: string -> bool)
    requires Inv(s, isReal)
    ensures var t := Submit(s, isReal);
      && Inv(t, isReal)
      && t.rootWord == s.rootWord
      && t.score - TotalLength(t.usedWords) == s.score - TotalLength(s.usedWords)
      && (t.usedWords == s.usedWords || (|t.usedWords| == |s.usedWords| + 1 && t.usedWords[1..] == s.usedWords))
  {
    var answer := Normalize(s.newWord);
    if Validate(answer, s.rootWord, s.usedWords, isReal).Accepted? {
      var ws := [answer] + s.usedWords;
      assert ws[0] == answer && ws[1..] == s.usedWords;
      NormalizeSpec(s.newWord);
    }
  }

  /** A list that ends in `mid`, where `mid` is `tail` or `tail` with one more
      word in front, also ends in `tail`. */
  lemma EndsInAfterStep(ws: seq<string>, mid: seq<string>, tail: seq<string>)
    requires |ws| >= |mid| && ws[|ws| - |mid|..] == mid
    requires mid == tail || (|mid| == |tail| + 1 && mid[1..] == tail)
    ensures |ws| >= |tail| && ws[|ws| - |tail|..] == tail
  {
    if mid != tail {
      assert ws[|ws| - |tail|..] == ws[|ws| - |mid|..][1..];
    }
  }

  /** Over any run of answers the invariant holds, the root word stays, the
      score never goes down, and the score grows by exactly the letters
      added to the list, which keeps the old list as its tail. */
  lemma {:induction false} PlayPreservesInv(s: GameState, answers: seq<string>, isReal: string -> bool)
    requires Inv(s, isReal)
    ensures var t := Play(s, answers, isReal);
      && Inv(t, isReal)
      && t.rootWord == s.rootWord
      && t.score >= s.score
      && t.score - TotalLength(t.usedWords) == s.score - TotalLength(s.usedWords)
      && |t.usedWords| >= |s.usedWords|
      && t.usedWords[|t.usedWords| - |s.usedWords|..] == s.usedWords
    decreases |answers|
  {
    if answers != [] {
      var s1 := s.(newWord := answers[0]);
      var s2 := Submit(s1, isReal);
      SubmitPreservesInv(s1, isReal);
      PlayPreservesInv(s2, answers[1..], isReal);
      var t := Play(s2, answers[1..], isReal);
      EndsInAfterStep(t.usedWords, s2.usedWords, s.usedWords);
    }
  }

  // ---------------------------------------------------------------------
  // startGame and restartGame

  /** `startGame` takes its root word from a line of `start.txt` (the
      "silkworm" fallback is never reached, since the text always has at
      least one line), clears the list and does not touch the score; the
      invariant holds afterwards. */
  lemma StartGameKeepsScore(s: GameState, startWords: string, pick: nat, isReal: string -> bool)
    requires Inv(s, isReal)
    ensures var t := StartGame(s, startWords, pick);
      && t.rootWord in Lines(startWords)
      && t.usedWords == [] && t.score == s.score
      && t.newWord == s.newWord && t.errorTitle == s.errorTitle
      && t.errorMessage == s.errorMessage && t.showingError == s.showingError
      && Inv(t, isReal)
  {
  }

  /** `restartGame` does what `startGame` does and sets the score to 0, from
      any state whatever. */
  lemma RestartGameZeroesScore(s: GameState, startWords: string, pick: nat, isReal: string -> bool)
    ensures var t := RestartGame(s, startWords, pick);
      && t.rootWord in Lines(startWords)
      && t.usedWords == [] && t.score == 0
      && t == StartGame(s, startWords, pick).(score := 0)
      && Inv(t, isReal)
  {
  }

  /** After a restart the score is exactly the number of letters in the
      accepted words, whatever the player submits. */
  lemma RestartThenPlay(s: GameState, startWords: string, pick: nat, answers: seq<string>, isReal: string -> bool)
    ensures var t := Play(RestartGame(s, startWords, pick), answers, isReal);
      t.score == TotalLength(t.usedWords)
  {
    PlayPreservesInv(RestartGame(s, startWords, pick), answers, isReal);
  }

  /** If `start.txt` ends in a line feed, its last line is empty and can be
      chosen as the root word. */
  lemma {:induction false} EmptyRootWordPossible(lastWord: string)
    requires '\n' !in lastWord
    ensures ChooseRootWord(lastWord + "\n", 1) == ""
  {
    LinesJoin([lastWord, ""]);
    assert Join([lastWord, ""]) == lastWord + "\n";
  }
}
