# Chatbot reply engine and hangman game, modelled in Dafny

This project models two small state machines from a desktop chatbot and a
hangman game, both run through Tkinter.

**The chatbot (`chatbot.py`).**
- `ChatbotCore` keeps a list of jokes, a list of facts and two riddle fields, `current_riddle` and `riddle_active`.
- `get_reply` normalises one line of text (`strip().lower()`) and runs a fixed first-match chain:
  1. the active-riddle branch, which has an answer test, "skip" and a retry prompt;
  2. exact small talk from `CONVO_MAP`;
  3. a fuzzy "how are" match;
  4. a riddle request;
  5. a top-level "skip";
  6. "joke", then "fact" or "did you know";
  7. a fallback text.
- `get_reply` returns the reply and the flags `clear_riddle` and `riddle_question`. The caller turns `clear_riddle` into `stop_riddle()`.
- The lists are loaded by `safe_read_lines`. That function keeps the stripped non-blank lines of a file, or writes and uses the defaults.
- The "add" handlers append a stripped entry to the file (`append_line_to_file`) and to the list.

**The hangman game (`hangman.py`).**
- `HangmanGame` holds a level, a counter of solved words, the remaining attempts (0 to 6), the word, the `guessed` display of `_` and letters, and the set of guessed letters.
- `start_game`, `reset_game`, `next_word`, `guess_letter` and `check_level_up` update these fields in place.
- `show_hint` looks the word up in `HINTS`.

The modules:
- `PyStr` (`pystr.dfy`): an ASCII model of the Python string operations the code uses. These are `strip`, `lower`, `upper`, `split()`, `" ".join` and substring `in`, with `isspace` taken as codes 9–13 and 28–32.
- `Chatbot` (`chatbot.dfy`): the constants, the dispatch as pure functions, and lemmas about every branch.
  - `RouteOf` picks the branch in the source's order. It keeps the conditions that can never hold.
  - `Reply` gives the branch's outcome.
  - `Respond` is `get_reply`.
  - `Turn` is one message through `_process_user_text`.
- `ChatbotFiles` (`chatbot_files.dfy`): `safe_read_lines` and `append_line_to_file` over a file modelled as its whole content, together with the line-splitting and filtering rules.
- `ChatbotSession` (`chatbot_session.dfy`): `class ChatbotCore`.
  - Its fields are updated in place.
  - `GetReply` is an early-return chain proved equal to `Respond`.
  - The methods for the GUI handlers are proved against `Turn` and `AddEntry`.
  - It also has lemmas tying the lists in memory to their files.
- `Hangman` (`hangman.dfy`):
  - the word lists and hints;
  - the rules of a round over a value `Game`: `Start`, `Reset`, `Guess` and the level rule, with the invariant `Inv` and lemmas about each rule;
  - `class HangmanGame`, with the `guessed` display as an `array<char>`. `GuessLetter` rewrites it in a loop, and every method is proved to follow those rules.

`random.choice` is modelled as an index parameter within bounds: a `Draw` for `get_reply`, and `pick` elsewhere. Two details follow the code exactly:
- The "skip" reply has a line break: `"Riddle skipped...\n The correct answer is: "` (chatbot.py:167).
- The constructor starts with `riddle_active` set and no riddle (chatbot.py:151-152). This is not the idle state, and `InitialActsIdle` proves it behaves exactly like it.

The constant tables are written out as Dafny constants, each beside the functions that use it:
- `Chatbot.DefaultJokes` and `Chatbot.DefaultFacts`: `DEFAULT_JOKES` and `DEFAULT_FACTS` (chatbot.py:17-26).
- `Chatbot.ConvoMap`: `CONVO_MAP` (chatbot.py:28-43).
- `Chatbot.Riddles`: `RIDDLES` (chatbot.py:45-52).
- `Chatbot.HowAreProbes`: the probes of chatbot.py:181.
- `Chatbot.RiddleRequests`: the request phrases of chatbot.py:184.
- `Chatbot.Initial` and `Chatbot.Idle`: the riddle fields set by `__init__` (chatbot.py:151-152) and by `stop_riddle` (chatbot.py:214-216).
- `Hangman.LevelWords`: `LEVEL_WORDS` after its two `extend` calls (hangman.py:5-17).
- `Hangman.BaseHints`, `Hangman.ExtraHints` and `Hangman.Hints`: `HINTS`, its `update` and the result (hangman.py:18-64).
- `Hangman.NoHint`: the default of hangman.py:218.

## Model

| member | source | states |
|---|---|---|
| PyStr.IsSpace | chatbot.py:157 | the definition of the whitespace class of `strip()` and `split()`: ASCII codes 9–13 and 28–32 |
| PyStr.Lstrip | chatbot.py:157 | the definition of the left half of `strip()`: the suffix after the leading whitespace, its meaning given by `LstripSpec` |
| PyStr.Rstrip | chatbot.py:157 | the definition of the right half of `strip()`: the prefix before the trailing whitespace, its meaning given by `RstripSpec` |
| PyStr.Strip | chatbot.py:157 | the definition of `strip()`: the right strip of the left strip, its meaning given by `StripSpec` |
| PyStr.Lower | chatbot.py:157 | the definition of `lower()`: each character through the ASCII lower-case mapping, its meaning given by `LowerAt` |
| PyStr.Upper | hangman.py:136 | the definition of `upper()`: each character through the ASCII upper-case mapping, of the same length |
| PyStr.StripSpec | chatbot.py:157 | `strip()` drops exactly a leading and a trailing run of whitespace: the result is a slice of the input with whitespace on both sides of it and no whitespace at its ends |
| PyStr.StripBlankIff | chatbot.py:157 | a text strips to the empty string exactly when every character is whitespace |
| PyStr.StripIdempotent | chatbot.py:157 | stripping twice is stripping once |
| PyStr.LowerAt | chatbot.py:157 | `lower()` maps each character on its own and leaves no upper-case letter |
| PyStr.LstripSpec | chatbot.py:157 | the left strip drops exactly a leading run of whitespace and stops at a non-space character |
| PyStr.RstripSpec | chatbot.py:157 | the right strip drops exactly a trailing run of whitespace |
| PyStr.TakeWord | chatbot.py:161 | one step of `split()`: the longest whitespace-free prefix, which ends at whitespace or at the end of the text |
| PyStr.Split | chatbot.py:161 | the definition of `split()` with no argument: skip leading whitespace, take the longest whitespace-free word, repeat |
| PyStr.JoinSpace | chatbot.py:161 | the definition of `" ".join(ws)`: the words with one space between neighbours |
| PyStr.Collapse | chatbot.py:161 | the definition of `user_ans`: `" ".join(text.split())` |
| PyStr.SplitWords | chatbot.py:161 | `split()` gives non-empty words without whitespace, made of characters of the input |
| PyStr.JoinSpaceChars | chatbot.py:161 | every non-blank character of `" ".join(ws)` comes from one of the words |
| PyStr.SplitJoinSpace | chatbot.py:161 | `split()` after `" ".join` gives back exactly the joined words, in order, for non-empty whitespace-free words |
| PyStr.SplitContent | chatbot.py:161 | the words of `split()`, put together, are exactly the non-whitespace characters of the input, in order |
| PyStr.CollapseIdempotent | chatbot.py:161 | collapsing a collapsed text changes nothing |
| PyStr.SplitSkipsSpace | chatbot.py:161 | leading whitespace does not change the words of `split()` |
| PyStr.CollapseTwoWords | chatbot.py:161 | two words with any whitespace run between them split into those two words and collapse to them joined by one space |
| PyStr.CollapsePencilLead | chatbot.py:161 | "pencil \t lead" collapses to "pencil lead" |
| PyStr.CollapseWord | chatbot.py:161 | `" ".join(s.split())` leaves a single word without whitespace unchanged |
| PyStr.CollapseBlank | chatbot.py:161 | a blank text collapses to the empty string |
| PyStr.Contains | chatbot.py:162 | the definition of `needle in hay`: a prefix here or further on, its meaning given by `ContainsIff` |
| PyStr.ContainsIff | chatbot.py:162 | `needle in hay` holds exactly when the needle occurs at some position of the haystack |
| PyStr.NotContains | chatbot.py:162 | a needle with a character the haystack lacks does not occur in it |
| PyStr.ContainsTrivial | chatbot.py:162 | the empty string is in every string, and every string is in itself |
| Chatbot.Asked | chatbot.py:159 | the definition of the riddle guard `self.riddle_active and self.current_riddle`, also tested at chatbot.py:192 |
| Chatbot.Normalize | chatbot.py:157 | the definition of `text`: `user_text.strip().lower()` |
| Chatbot.Expected | chatbot.py:160 | the definition of `expected`: the riddle's answer, stripped and lower-cased |
| Chatbot.AnswerMatches | chatbot.py:162 | the answer test: equal, or either text contains the other |
| Chatbot.ContainsAny | chatbot.py:181 | the `any(g in text ...)` test: some probe occurs in the text |
| Chatbot.RouteOf | chatbot.py:155-206 | the branch `get_reply` takes; a small-talk branch is taken with the normalised text as a `CONVO_MAP` key, and the riddle branches are taken exactly when the riddle guard holds |
| Chatbot.Reply | chatbot.py:159-206 | the new riddle fields are the old ones or the drawn riddle; `clear_riddle` is set exactly on a correct answer, a skipped riddle, the answer path and "bye"/"goodbye"; `riddle_question` is set exactly on a riddle request |
| Chatbot.Respond | chatbot.py:155-206 | `get_reply` changes the riddle fields only to the drawn riddle, made active |
| Chatbot.Turn | chatbot.py:455-463 | `_process_user_text` replies as `get_reply` does and ends idle whenever `clear_riddle` is set |
| Chatbot.SameBehaviourBisimilar | chatbot.py:159 | states that agree on `riddle_active and current_riddle` (and on the riddle, when it holds) give the same replies and flags and stay in agreement |
| Chatbot.TurnSeesNormalForm | chatbot.py:157 | two messages with the same `strip().lower()` get the same reply, flags and new state |
| Chatbot.InitialActsIdle | chatbot.py:151-152 | the constructor's state (active, no riddle) behaves exactly like the state `stop_riddle` leaves |
| Chatbot.TurnReachable | chatbot.py:186-187 | a held riddle is always active and one of `RIDDLES`; every turn keeps this |
| Chatbot.AskedRoute | chatbot.py:159-173 | under an active riddle the answer test comes first, then "skip", then the retry prompt; no later branch is reached |
| Chatbot.RiddleAnswerIff | chatbot.py:160-165 | under an active riddle the reply is the congratulation exactly when the expected and collapsed answers are equal or one contains the other, and then `clear_riddle` is set |
| Chatbot.RiddleWrongAnswer | chatbot.py:166-173 | a wrong answer "skip" reveals the stripped, lower-cased answer and sets `clear_riddle`; any other wrong answer gets the retry prompt and no flags |
| Chatbot.NormalizedHasNoUpper | chatbot.py:157 | neither `text` nor `user_ans` holds an upper-case letter |
| Chatbot.UpperSkipUnreachable | chatbot.py:166 | the comparisons with "SKIP" and "Skip" can never hold |
| Chatbot.BlankAnswerIsCorrect | chatbot.py:162 | a blank answer is congratulated for every riddle |
| Chatbot.NormalizeClean | chatbot.py:157 | a message without edge whitespace or capitals is its own normal form |
| Chatbot.CleanWord | chatbot.py:157-161 | a lower-case word is its own normal form and its own collapsed answer |
| Chatbot.RiddleAnswers | chatbot.py:45-52 | the expected answers are "echo" (its trailing blank stripped), "pencil lead" and "piano" |
| Chatbot.PartialAnswerAccepted | chatbot.py:162-165 | "lead" answers the "pencil lead" riddle |
| Chatbot.LetterAnswerAccepted | chatbot.py:162-165 | the single letter "a" answers the "piano" riddle |
| Chatbot.CaseInsensitiveAnswer | chatbot.py:157-165 | a message normalising to "echo" answers the echo riddle |
| Chatbot.NormalizeExamples | chatbot.py:157 | "Echo" and " ECHO " both normalise to "echo" |
| Chatbot.SkipRevealsAnswer | chatbot.py:166-169 | "skip" on the echo riddle replies with the skip text and "echo" and sets `clear_riddle` |
| Chatbot.MissWhileActive | chatbot.py:171-173 | an answer other than "skip" that matches no riddle gets the retry prompt with no flags, and the state stays as it was |
| Chatbot.ActiveRiddleSwallowsCommands | chatbot.py:171-173 | "riddles" (which the Riddles button sends) and "hello" get the retry prompt while a riddle is active |
| Chatbot.SmallTalkReply | chatbot.py:175-179 | an exact `CONVO_MAP` phrase gets its mapped reply; only "bye" and "goodbye" set `clear_riddle` |
| Chatbot.ExactBeatsFuzzy | chatbot.py:175-182 | "how are you doing?" contains "how are" but gets its own exact reply, which differs from the fuzzy one |
| Chatbot.ByeClearsRiddle | chatbot.py:177-178 | a "bye" turn replies "Goodbye! Have a great day!", sets `clear_riddle` and ends idle |
| Chatbot.FuzzyHowAre | chatbot.py:181-182 | a non-exact message containing any of the three probes gets the "how are you" reply and no flags |
| Chatbot.HowIsItGoing | chatbot.py:181-182 | "how's it going" is no `CONVO_MAP` key but gets the "how are you" reply through its probe |
| Chatbot.UpperRequestsUnreachable | chatbot.py:184 | "RIDDLES" and "RIDDLE" can never match; the requests that can are exactly the five lower-case ones |
| Chatbot.RequestsPassEarlierTests | chatbot.py:175-184 | no riddle request is a small-talk phrase or holds a "how are" probe |
| Chatbot.RiddleRequest | chatbot.py:184-189 | a riddle request makes the drawn riddle current and active, sets `riddle_question` and replies with its question |
| Chatbot.RiddlesAsksWhenIdle | chatbot.py:613-614 | the button's "riddles" asks the drawn riddle when none is active |
| Chatbot.TopLevelSkip | chatbot.py:191-197 | with no active riddle, "skip" gets the "No active riddle" reply, no flags and no change |
| Chatbot.ShowAnswerUnreachable | chatbot.py:192-195 | the "The answer is:" path is never taken |
| Chatbot.JokeReply | chatbot.py:199-200 | a message reaching the keyword tests with "joke" gets one of the jokes, even if it has "fact"; nothing changes |
| Chatbot.FactReply | chatbot.py:202-203 | a message reaching the keyword tests with no "joke" but with "fact" or "did you know" gets one of the facts |
| Chatbot.FallbackReplyIff | chatbot.py:205-206 | with no active riddle the fallback is taken exactly when no earlier test matches, and replies the fixed help text |
| Chatbot.JokePhrasePassesEarlierTests | chatbot.py:175-199 | "tell me a joke" passes every earlier test and contains "joke" |
| Chatbot.TellMeAJoke | chatbot.py:199-200 | "tell me a joke" gets one of the jokes |
| Chatbot.BlankMessageFallsBack | chatbot.py:205-206 | a blank message with no active riddle gets the fallback |
| Chatbot.RandomItem | chatbot.py:208-212 | a joke or fact comes from the list, or is the first default when the list is empty |
| Chatbot.AddEntry | chatbot.py:625-630 | an add handler appends the stripped text, an already stripped non-empty entry, unless it is empty; earlier entries stay |
| ChatbotFiles.JoinLines | chatbot.py:91 | the definition of `"\n".join(default_list)` |
| ChatbotFiles.KeptLines | chatbot.py:94 | the definition of the comprehension: each line stripped, the blank ones dropped |
| ChatbotFiles.TextLines | chatbot.py:93-94 | the definition of reading a text: split into lines, then `KeptLines` |
| ChatbotFiles.SplitLines | chatbot.py:94 | a split always has at least one piece |
| ChatbotFiles.SplitNoNewline | chatbot.py:94 | no piece of a split holds a line break |
| ChatbotFiles.SplitAppend | chatbot.py:94 | splitting at one more line break splits both sides independently |
| ChatbotFiles.SplitJoin | chatbot.py:91 | splitting undoes `"\n".join` for lines without breaks |
| ChatbotFiles.KeptAppend | chatbot.py:94 | the filter distributes over concatenation |
| ChatbotFiles.KeptClean | chatbot.py:94 | every kept line is non-empty and already stripped |
| ChatbotFiles.KeptOfClean | chatbot.py:94 | clean lines are kept unchanged |
| ChatbotFiles.TextLinesClean | chatbot.py:94 | the lines read from a file are clean and hold no line break |
| ChatbotFiles.StoredRoundTrip | chatbot.py:91-94 | reading back what `"\n".join` wrote gives the same list, for clean lists |
| ChatbotFiles.ReadLines | chatbot.py:87-102 | the result is the defaults or the file's own lines; with the defaults the file is left alone or rewritten with them; with non-empty defaults the result is never empty |
| ChatbotFiles.ReadLinesCases | chatbot.py:89-102 | a file with text yields its clean lines untouched; a missing or textless file is rewritten with the defaults; a failing one gives the defaults |
| ChatbotFiles.ReadLinesIdempotent | chatbot.py:87-99 | loading a second time gives what the first load gave and leaves the file as it was |
| ChatbotFiles.AppendLine | chatbot.py:104-109 | appending succeeds exactly when the file can be opened |
| ChatbotFiles.AppendThenRead | chatbot.py:104-107 | after an append, reading gives the old lines followed by the stripped entry |
| ChatbotSession.ChatbotCore.constructor | chatbot.py:148-152 | the lists are loaded through `safe_read_lines` and the state is active with no riddle |
| ChatbotSession.ChatbotCore.GetReply | chatbot.py:155-206 | the reply, flags and new riddle fields are those of `Respond`; the lists are unchanged |
| ChatbotSession.ChatbotCore.StopRiddle | chatbot.py:214-216 | no riddle, not active |
| ChatbotSession.ChatbotCore.ProcessUserText | chatbot.py:455-463 | one message is one `Turn` |
| ChatbotSession.ChatbotCore.Send | chatbot.py:447-453 | an entry that strips to nothing is ignored; otherwise its stripped text is one `Turn` |
| ChatbotSession.ChatbotCore.RiddlesClicked | chatbot.py:613-619 | the button asks a riddle when none is active, and otherwise gets the retry prompt and keeps the riddle, since it never calls `stop_riddle` |
| ChatbotSession.ChatbotCore.GetRandomJoke | chatbot.py:208-209 | a member of the jokes, or the first default joke when there are none |
| ChatbotSession.ChatbotCore.GetRandomFact | chatbot.py:211-212 | a member of the facts, or the first default fact when there are none |
| ChatbotSession.ChatbotCore.AddJoke | chatbot.py:624-630 | an entry is added exactly when it is not blank, as `AddEntry` says |
| ChatbotSession.ChatbotCore.AddFact | chatbot.py:634-640 | an entry is added exactly when it is not blank, as `AddEntry` says |
| ChatbotSession.NormalizeStripped | chatbot.py:448 | stripping in `_on_send` does not change the normal form |
| ChatbotSession.JokesStorable | chatbot.py:17-21 | the default jokes survive a write and a read unchanged |
| ChatbotSession.FactsStorable | chatbot.py:22-26 | the default facts survive a write and a read unchanged |
| ChatbotSession.LoadSynced | chatbot.py:87-99 | after loading from a file that can be opened, the file yields exactly the loaded list |
| ChatbotSession.AddSynced | chatbot.py:629-630 | an add appends the same entry to the file and the list, so a synchronised pair stays synchronised |
| Hangman.Hint | hangman.py:218 | the definition of `HINTS.get(word, "No hint available")` |
| Hangman.NextLevel | hangman.py:192-200 | the definition of `check_level_up`: level 2 from 1 at five solved words, level 3 from 2 at fifteen, otherwise unchanged |
| Hangman.Mask | hangman.py:137 | the reference display: each letter of the word if it is guessed, `_` otherwise |
| Hangman.Reveal | hangman.py:164-166 | the definition of the reveal loop: every position holding the letter shows it, all others are kept; its meaning given by `RevealMask` |
| Hangman.Start | hangman.py:135-139 | the definition of `start_game`: the drawn word upper-cased, an all-`_` display, no letters, 6 attempts; its meaning given by `StartInv` |
| Hangman.Reset | hangman.py:146-150 | the definition of `reset_game`: level 1, counter 0, then `Start` |
| Hangman.Guess | hangman.py:153-189 | the definition of `guess_letter` as a new game and a feedback, branch by branch; its meaning given by the `Guess` lemmas |
| Hangman.LevelFor | hangman.py:192-200 | levels run from 1 to 3: 1 below five solved words, 3 from fifteen |
| Hangman.LevelStep | hangman.py:171-172 | with the counter stepping by one, `check_level_up` keeps the level equal to `LevelFor` of the counter, and the level rises by at most one |
| Hangman.LevelNeedsUnitSteps | hangman.py:192-200 | the rule takes one step at a time: a jump from 4 to 15 reaches only level 2 |
| Hangman.RevealMask | hangman.py:164-166 | revealing a letter on the display gives the display of the enlarged set of letters |
| Hangman.Level1NoUnderscore | hangman.py:6-14 | no level-1 word, the extension included, holds `_` |
| Hangman.Level2NoUnderscore | hangman.py:7-17 | no level-2 word, the extension included, holds `_` |
| Hangman.Level3NoUnderscore | hangman.py:9-12 | no level-3 word holds `_` |
| Hangman.NoUnderscore | hangman.py:5-17 | no word of `LEVEL_WORDS` holds `_` |
| Hangman.StartNoUnderscore | hangman.py:136 | the upper-cased word a round starts with holds no `_`, so `SolvedIff` applies to every round |
| Hangman.SolvedIff | hangman.py:170 | no `_` is left exactly when every letter of the word is guessed |
| Hangman.SolvedAllGuessed | hangman.py:170 | a display with no `_` means every letter of the word is guessed |
| Hangman.SolvedMisses | hangman.py:153-172 | once solved, any new letter is not in the word |
| Hangman.StartInv | hangman.py:135-139 | a new round holds an upper-cased word of the level, an all-`_` display of its length, no letters and 6 attempts, and satisfies the invariant |
| Hangman.ResetInv | hangman.py:146-150 | a reset gives level 1, counter 0 and a level-1 word, and satisfies the invariant |
| Hangman.GuessInv | hangman.py:153-189 | every guess keeps the display equal to the mask of the guessed letters, the attempts within 0..6 and the level following the counter |
| Hangman.GuessRepeated | hangman.py:154-156 | a letter already guessed changes nothing |
| Hangman.GuessExhausted | hangman.py:157-159 | with no attempts left a new letter changes nothing |
| Hangman.GuessHit | hangman.py:161-168 | a new letter of the word reveals exactly its positions, keeps every other position and the attempts, and is recorded |
| Hangman.GuessMiss | hangman.py:176-179 | a new letter not in the word costs exactly one attempt, never below zero, and leaves the display, counter and level alone |
| Hangman.CounterStep | hangman.py:170-172 | the counter grows by one exactly when a guess completes an unsolved word, and never by more |
| Hangman.CounterOncePerWord | hangman.py:153-172 | once a word is solved no guess adds to the counter again |
| Hangman.MonitorIsPlayed | hangman.py:15-17 | "monitor" is a level-2 word, played as "MONITOR" |
| Hangman.MonitorNotListed | hangman.py:20-64 | neither hint table has "MONITOR" |
| Hangman.MonitorHasNoHint | hangman.py:218 | its hint is "No hint available" |
| Hangman.ExtraHintsWin | hangman.py:58-64 | an entry of the `update` replaces any earlier hint for its word |
| Hangman.HangmanGame.constructor | hangman.py:113-121 | level 1, no solved words, then a first round, valid |
| Hangman.HangmanGame.StartGame | hangman.py:135-139 | the fields become `Start` of the old ones, with a fresh display array |
| Hangman.HangmanGame.ResetGame | hangman.py:146-150 | the fields become `Reset` of the old ones, valid from any state |
| Hangman.HangmanGame.NextWord | hangman.py:231-234 | a new round at the current level, valid |
| Hangman.HangmanGame.CheckLevelUp | hangman.py:192-200 | the level becomes `NextLevel` of the old level and the counter; all else is kept |
| Hangman.HangmanGame.GuessLetter | hangman.py:153-189 | the fields and feedback are exactly `Guess` of the old fields, the display array is rewritten in place, and the invariant is kept |
| Hangman.HangmanGame.ShowHint | hangman.py:217-218 | the hint is `HINTS.get(word, "No hint available")` |

## Left out

- The Tkinter GUI: widgets, labels, buttons, themes, slide animations, manual windows and full-screen toggles. These are display only. What a hangman guess would show is returned as a `Feedback` value instead.
- Text-to-speech and the daemon threads that run it. The worker thread of `_on_send` is also left out: a message is dispatched sequentially.
- The extra prompt lines that `_process_user_text` and `_on_riddles_clicked` print after a riddle question. They are display only.
- The randomness of `random.choice`. Its result is an index parameter in range, not a distribution.
- `task_automation.py`. It is filesystem plumbing around charts and a timer.
- Real file I/O. A file is `Missing`, `Present(content)` or `Broken` (every open fails). The error messages printed to standard error are not modelled.
- ChatbotFiles.ReadLines: a write of the defaults that itself fails is not modelled. Neither are universal newlines: only `\n` separates lines, so a lone `\r` inside a line is kept.
- ChatbotFiles.AppendLine: a write that fails after the file was opened is not distinguished from a file that cannot be opened.
- Unicode: strings are sequences of characters under ASCII rules for `isspace`, `lower` and `upper`. The non-ASCII reply texts are copied code point by code point and never inspected.
- ChatbotSession.ChatbotCore.GetReply: the unreachable `"The answer is:"` branch is a proved-dead `assert false`, not a reply. `Chatbot.Reply` still gives its outcome, and its unreachability is `Chatbot.ShowAnswerUnreachable`.
- Hangman letters come from A–Z buttons in the GUI. `GuessLetter` accepts any character and makes no requirement on it. `SolvedIff` takes a word without `_`; `StartNoUnderscore` proves that every round's word is one.
- ChatbotFiles.AppendThenRead and ChatbotSession.AddSynced take an entry without a line break. An entry with one is written as two lines by `append_line_to_file`, so the next load gives two entries where the list in memory holds one; this case is not modelled.
- The add handlers' message boxes and the clearing of the entry field. They are GUI only.
