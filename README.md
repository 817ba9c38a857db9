# WordScramble: the game state of `ContentView`

WordScramble is a SwiftUI word game. The screen shows a root word taken from
the lines of `start.txt`. The player types words spelled from its letters. An answer is
lower-cased and trimmed; a blank answer is ignored. Otherwise the answer must
be at least three letters long, spellable from the root word, new, and a
real English word. The first check that fails raises an alert with its own
title and message. An accepted answer goes to the top of the list and adds
its length to the score. "New Word" picks another root word from the lines
of `start.txt` and clears the list. "Restart Game" does that and also sets
the score to 0.

The model has three modules:

- `SwiftText` (`swift_text.dfy`) holds the Foundation string operations the
  game relies on, on `seq<char>`: `lowercased()`,
  `trimmingCharacters(in: .whitespacesAndNewlines)`,
  `components(separatedBy: "\n")`, `firstIndex(of:)` and `remove(at:)`.
  Each one comes with lemmas that state what it computes.
- `Rules` (`rules.dfy`) describes the seven `@State` fields as one
  `GameState` value. It gives the checks of `addNewWord` in their order as
  a function `Validate`, and each handler as a pure transition: `Submit`,
  `StartGame` and `RestartGame`. It also defines `Play`, a run of answers.
  It proves what the handlers promise. Above all, it proves the invariant
  `Inv`:
  - the list of used words has no duplicates;
  - every word in it passed all four checks against the current root word
    and is in normal form;
  - the score is at least the total length of the list.
- `WordScramble` (`content_view.dfy`) holds the class `ContentView`, whose
  fields are the `@State` variables. Its methods are `addNewWord`,
  `startGame`, `isPossible`, `wordError`, `calculateScore` and
  `restartGame`. `isOriginal` and `isReal` are functions. All of them are
  written as in the source, step by step and field by field.
  `addNewWord`, `startGame` and `restartGame` are each proved equal to
  their `Rules` transition (`Submit`, `StartGame`, `RestartGame`).
  `wordError` is proved equal to `Rules.WithError`. `calculateScore` is
  proved to change the score and nothing else. Every state-changing method
  keeps `Valid()`, which is `Inv` of the fields. `isPossible` keeps the source's loop, which removes letters
  from a copy of the root word. It is proved to decide
  `multiset(word) <= multiset(rootWord)`.

Outside effects are parameters:

- The dictionary consulted by `isReal` is the constant field `isKnownWord`.
- `startGame` receives the text of `start.txt` as `startWords`.
- The random choice of `randomElement()` is `pick`; the element chosen is
  `lines[pick % |lines|]`.

## Model

| member | source | states |
|---|---|---|
| WordScramble.ContentView.constructor | WordScramble/ContentView.swift:11-19 | the fields start at their declared values (empty list, empty strings, no alert, score 0), and the invariant holds |
| WordScramble.ContentView.AddNewWord | WordScramble/ContentView.swift:69-102 | the new state is `Rules.Submit` of the old one: normalise, ignore a blank answer, fail at the first of the length, spelling, originality and dictionary checks with that check's alert, or else add the length to the score, put the word in front and clear the field; the invariant is kept |
| WordScramble.ContentView.IsPossible | WordScramble/ContentView.swift:120-131 | taking the word's letters one by one out of a copy of the root word succeeds exactly when no letter is needed more often than the root word has it (`multiset(word) <= multiset(rootWord)`); the root word is not changed |
| WordScramble.ContentView.IsOriginal | WordScramble/ContentView.swift:116-118 | true exactly when no entry of the used-word list equals the word |
| WordScramble.ContentView.IsReal | WordScramble/ContentView.swift:133-138 | no contract of its own: the verdict is whatever the dictionary `isKnownWord` says |
| WordScramble.ContentView.WordError | WordScramble/ContentView.swift:140-144 | sets the alert's title and message, sets `showingError`, changes nothing else (the new state is `Rules.WithError` of the old one), and keeps the invariant |
| WordScramble.ContentView.CalculateScore | WordScramble/ContentView.swift:146-149 | the score grows by the word's length, the new score is returned, nothing else changes, and the invariant is kept |
| WordScramble.ContentView.StartGame | WordScramble/ContentView.swift:104-114 | the new state is `Rules.StartGame` of the old one: the root word is taken from the lines of `start.txt` and the list is emptied; the invariant is kept |
| WordScramble.ContentView.RestartGame | WordScramble/ContentView.swift:151-154 | the new state is `Rules.RestartGame` of the old one: what `startGame` does, with the score set to 0 |
| Rules.ValidateFirstFailure | WordScramble/ContentView.swift:71-93 | each verdict in closed form: blank iff ignored; too short iff 1 or 2 letters; not possible iff long enough but not spellable; already used iff spellable and in the list; not real iff it passes every other check and the dictionary rejects it; accepted iff it passes all four, with the word itself and its length as score |
| Rules.SubmitIgnoresBlank | WordScramble/ContentView.swift:70-71 | an answer made only of whitespace leaves the whole state unchanged and raises no alert |
| Rules.SubmitRejects | WordScramble/ContentView.swift:73-93 | a rejected answer raises the alert of the first failed check, and leaves the list, the score, the text field and the root word alone |
| Rules.SubmitAccepts | WordScramble/ContentView.swift:94-101 | an accepted answer goes to the front of the list, with the old list behind it; the score grows by its length; the text field becomes empty; the alert fields and the root word stay |
| Rules.SubmitScoreNeverDecreases | WordScramble/ContentView.swift:94 | submitting an answer never lowers the score |
| Rules.SubmitTwiceIsAlreadyUsed | WordScramble/ContentView.swift:85-88 | submitting an accepted answer a second time raises the "Word used already!" alert and changes neither list nor score |
| Rules.SubmitPreservesInv | WordScramble/ContentView.swift:69-102 | `addNewWord` keeps the invariant: the list has no duplicates, every word in it is at least three letters long, spellable from the root word, known to the dictionary and normalised, and the score covers the letters of the list; the root word stays; the list is unchanged or gains one word in front; score minus letters is preserved |
| Rules.PlayPreservesInv | WordScramble/ContentView.swift:42 | over any run of submitted answers the invariant holds, the root word stays, the score never decreases and grows by exactly the letters added, and the old list remains the tail of the new one |
| Rules.RootWordIsAccepted | WordScramble/ContentView.swift:80-93 | the root word itself, if normalised, longer than two letters, a real word and not yet used, is accepted |
| Rules.SpellingExamples | WordScramble/ContentView.swift:120-131 | "eee" cannot be spelled from "tree" (a letter used more often than the root has it), and "silk" can be spelled from "silkworm" |
| Rules.SpellableIsNoLonger | WordScramble/ContentView.swift:120-131 | a word that can be spelled from the root word is no longer than the root word |
| Rules.RandomElement | WordScramble/ContentView.swift:108 | `randomElement()` gives nothing exactly on an empty list, and otherwise an element of the list |
| Rules.StartGameKeepsScore | WordScramble/ContentView.swift:104-114 | `startGame` takes the root word from a line of the file (the "silkworm" fallback is never reached), empties the list, keeps the score, the text field and the alert, and the invariant holds afterwards |
| Rules.RestartGameZeroesScore | WordScramble/ContentView.swift:151-154 | `restartGame` is `startGame` followed by setting the score to 0; from any state whatever, the invariant holds afterwards |
| Rules.RestartThenPlay | WordScramble/ContentView.swift:146-154 | after a restart, whatever the player submits, the score equals the total length of the accepted words |
| Rules.EmptyRootWordPossible | WordScramble/ContentView.swift:107-108 | when `start.txt` ends in a line feed, its last line is empty and can be chosen as the root word |
| SwiftText.LowercasedSpec | WordScramble/ContentView.swift:70 | lower-casing keeps the length, leaves no capital letter, maps each capital letter to its lower-case letter and changes nothing else |
| SwiftText.LowercasedFixesLowercase | WordScramble/ContentView.swift:70 | a string with no capital letter is its own lower-casing |
| SwiftText.TrimLeadingSpec | WordScramble/ContentView.swift:70 | trimming the front drops a run of whitespace and stops at the first character that is not whitespace |
| SwiftText.TrimTrailingSpec | WordScramble/ContentView.swift:70 | trimming the back drops a run of whitespace and stops at the last character that is not whitespace |
| SwiftText.TrimmedSpec | WordScramble/ContentView.swift:70 | the trimmed string is `s[a..b]`, where everything before `a` and everything from `b` on is whitespace; it has no whitespace at either end; it is empty exactly when the input is all whitespace |
| SwiftText.TrimmedFixesTrimmed | WordScramble/ContentView.swift:70 | a string without whitespace at either end is its own trimming |
| SwiftText.TrimmedKeepsLowercase | WordScramble/ContentView.swift:70 | trimming keeps a string free of capital letters |
| SwiftText.NormalizeSpec | WordScramble/ContentView.swift:70-71 | the normalised answer has no capital letter and no whitespace at either end, and it is empty exactly when the raw text is all whitespace |
| SwiftText.NormalizeFixesNormalized | WordScramble/ContentView.swift:70 | normalising a string already in normal form changes nothing |
| SwiftText.NormalizeIdempotent | WordScramble/ContentView.swift:70 | normalising twice is the same as normalising once |
| SwiftText.Lines | WordScramble/ContentView.swift:107 | splitting at line feeds always gives at least one piece, and no piece holds a line feed |
| SwiftText.JoinLines | WordScramble/ContentView.swift:107 | joining the pieces with line feeds gives back the text |
| SwiftText.LinesJoin | WordScramble/ContentView.swift:107 | splitting the join of pieces that hold no line feed gives back the pieces |
| SwiftText.LinesOfLine | WordScramble/ContentView.swift:107 | a text without a line feed is a single piece |
| SwiftText.LinesOfLineFeed | WordScramble/ContentView.swift:107 | the text before the first line feed is the first piece, and the rest is split on its own |
| SwiftText.FirstIndex | WordScramble/ContentView.swift:124 | `firstIndex(of:)` gives nothing exactly when the character does not occur; otherwise it gives a position holding the character, with no earlier occurrence |
| SwiftText.RemoveAt | WordScramble/ContentView.swift:125 | `remove(at:)` shortens the string by one and removes exactly one copy of the character at that position from its multiset of letters |

## Left out

- The SwiftUI view: the `body` layout, the list, the text field and its autocapitalisation setting, the toolbar buttons, the alert and how it is shown and dismissed, `withAnimation` and `#Preview`. The buttons and `onSubmit` only call the modelled handlers, and `Play` stands for a player submitting answers in turn.
- `isReal` does not call `UITextChecker`. The dictionary is the constant field `isKnownWord`, which `IsReal` consults as it is. Spell checking is a foreign call that cannot be modelled. The dictionary is assumed to stay the same for the whole game. The source builds a new `UITextChecker` on every call and never checks stored words again. The invariant's promise that every stored word is in the dictionary holds only because `isKnownWord` is a constant.
- `startGame` does not read the bundle: the caller passes the text of `start.txt`. The `fatalError` for a missing or unreadable file is not modelled, because it depends on the file system.
- `randomElement()` is not random: the parameter `pick` chooses the element. The model covers every possible choice, not a distribution.
- `lowercased()` affects only the ASCII letters A–Z here. Swift lower-cases all of Unicode, which needs tables that are not modelled.
- A `char` stands for one Swift `Character`. Grapheme clusters are not modelled; in particular Swift counts `"\r\n"` as one `Character`. Swift also compares `String` and `Character` values by canonical equivalence, both in `contains` (used by `isOriginal`) and in `firstIndex(of:)` (used by `isPossible`). The model compares `char` values exactly, so it treats composed and decomposed forms of the same letter as different.
- `score` is an unbounded integer. Swift's `Int` would trap after 2^63 − 1, which is out of reach of any real game.
- The root word is not always non-empty. When `start.txt` ends in a line feed, `components(separatedBy:)` yields an empty last line, and that line can be picked (`Rules.EmptyRootWordPossible`). The model follows this behaviour and does not assume a non-empty root word.
- The source's `guard … else { …; return }` sequence in `addNewWord` is written as one `if`/`else` chain. It runs the same checks, in the same order, with the same alerts.
