/** The hangman game: the word lists and hints, the pure rules of one round
    (`Guess`, `Start`, the level rule) over a value `Game`, and `HangmanGame`,
    whose methods update the fields and the `guessed` array in place and are
    proved to follow those rules. The widgets (buttons, labels, the manual
    window) are left out; what a method would show is returned as `Feedback`. */
module Hangman {
  import opened PyStr

  // ---------------------------------------------------------------------------
  // Word lists and hints
  // ---------------------------------------------------------------------------

  const Level1Words: seq<string> := ["python", "developer", "computer", "hangman", "program", "apple"]
  const Level2Words: seq<string> :=
    ["keyboard", "algorithm", "function", "variable", "internet",
     "syntax", "compiler", "software", "hardware", "database"]
  const Level3Words: seq<string> :=
    ["asynchronous", "polymorphism", "inheritance", "encapsulation",
     "abstraction", "multithreading", "concurrency", "optimization",
     "recursion", "serialization", "virtualization", "cryptography",
     "authentication", "authorization", "microservices"]

  /** `LEVEL_WORDS` after the two `extend` calls. */
  const LevelWords: map<int, seq<string>> := map[
    1 := Level1Words + ["table", "chair", "house", "train"],
    2 := Level2Words + ["monitor", "printer", "package", "library", "storage", "network"],
    3 := Level3Words
  ]

  const BaseHints: map<string, string> := map[
    "PYTHON" := "A popular programming language.",
    "APPLE" := "A popular fruit that keeps the doctor away.",
    "DEVELOPER" := "A person who writes code.",
    "COMPUTER" := "Electronic device for processing data.",
    "HANGMAN" := "The game you are playing!",
    "PROGRAM" := "Set of instructions executed by a computer.",
    "KEYBOARD" := "Input device with letters and keys.",
    "ALGORITHM" := "Step-by-step problem-solving method.",
    "FUNCTION" := "Reusable block of code in programming.",
    "VARIABLE" := "Used to store data in programming.",
    "INTERNET" := "Global network connecting computers.",
    "SYNTAX" := "Rules for writing code.",
    "COMPILER" := "Converts code into machine language.",
    "SOFTWARE" := "Programs running on computers.",
    "HARDWARE" := "Physical components of a computer.",
    "DATABASE" := "Structured collection of data.",
    "ASYNCHRONOUS" := "Execution not happening at the same time.",
    "POLYMORPHISM" := "OOP concept: same interface, different forms.",
    "INHERITANCE" := "OOP: child class gets features of parent.",
    "ENCAPSULATION" := "OOP: keeping data safe inside class.",
    "ABSTRACTION" := "OOP: showing only necessary details.",
    "MULTITHREADING" := "Running multiple threads concurrently.",
    "CONCURRENCY" := "Multiple tasks making progress at the same time.",
    "OPTIMIZATION" := "Making code or process more efficient.",
    "RECURSION" := "Function calls itself.",
    "SERIALIZATION" := "Converting objects into data stream.",
    "VIRTUALIZATION" := "Creating virtual versions of resources.",
    "CRYPTOGRAPHY" := "Science of secure communication.",
    "AUTHENTICATION" := "Verify identity of user.",
    "AUTHORIZATION" := "Giving permissions to user.",
    "MICROSERVICES" := "Small, independent services in an app.",
    "PRINTER" := "Device used to print documents.",
    "PACKAGE" := "Collection of modules or software components.",
    "LIBRARY" := "Collection of code modules for reuse.",
    "STORAGE" := "Place to save files or data.",
    "NETWORK" := "Connected computers exchanging information."
  ]

  const ExtraHints: map<string, string> := map[
    "APPLE" := "A popular fruit that keeps the doctor away.",
    "TABLE" := "Furniture used to place items on.",
    "CHAIR" := "Something you sit on.",
    "HOUSE" := "A place where people live.",
    "TRAIN" := "A vehicle that runs on tracks."
  ]

  /** `HINTS` after `update`: the later entries win. */
  const Hints: map<string, string> := BaseHints + ExtraHints

  const NoHint := "No hint available"

  /** `HINTS.get(word, "No hint available")` */
  function Hint(word: string): string {
    if word in Hints then Hints[word] else NoHint
  }

  // ---------------------------------------------------------------------------
  // Levels
  // ---------------------------------------------------------------------------

  /** The level a player with `counter` solved words has: 1 below five, 2 below fifteen, else 3. */
  function LevelFor(counter: nat): (level: int)
    ensures 1 <= level <= 3
    ensures level == 1 <==> counter < 5
    ensures level == 3 <==> counter >= 15
  {
    if counter < 5 then 1 else if counter < 15 then 2 else 3
  }

  /** `check_level_up`: one step up, from 1 at five solved words and from 2 at fifteen. */
  function NextLevel(level: int, counter: nat): int {
    if counter >= 5 && level == 1 then 2
    else if counter >= 15 && level == 2 then 3
    else level
  }

  /** Since the counter only ever grows by one, the level rule keeps the level
      equal to `LevelFor` of the counter. */
  lemma LevelStep(counter: nat)
    ensures NextLevel(LevelFor(counter), counter + 1) == LevelFor(counter + 1)
    ensures LevelFor(counter) <= LevelFor(counter + 1) <= LevelFor(counter) + 1
  {
  }

  /** A counter that skips values can leave the level behind: from 4 straight to 15
      only one step is taken. */
  lemma LevelNeedsUnitSteps()
    ensures NextLevel(LevelFor(4), 15) == 2 && LevelFor(15) == 3
  {
  }

  // ---------------------------------------------------------------------------
  // The rules of a round
  // ---------------------------------------------------------------------------

  /** The game fields, as a value: `guessed` is the list of `_` and revealed letters. */
  datatype Game = Game(level: int, counter: nat, attempts: int, word: string,
                       guessed: seq<char>, letters: set<char>)

  /** What the message label and the extra buttons would show after a guess. */
  datatype Feedback =
    | AlreadyGuessed
    | NoAttemptsLeft
    | Correct(solved: bool)
    | Wrong(attemptsLeft: int)

  datatype Played = Played(next: Game, feedback: Feedback)

  /** The display a word has for a set of guessed letters: the letters guessed so far, `_` elsewhere. */
  function Mask(word: string, letters: set<char>): seq<char> {
    seq(|word|, i requires 0 <= i < |word| => if word[i] in letters then word[i] else '_')
  }

  /** The invariant of the game: the display is the mask of the word, the attempts
      stay between 0 and 6 and the level follows the counter. */
  predicate Inv(g: Game) {
    g.guessed == Mask(g.word, g.letters) && 0 <= g.attempts <= 6 && g.level == LevelFor(g.counter)
  }

  /** No `_` is left on display. */
  predicate Solved(g: Game) {
    '_' !in g.guessed
  }

  /** The loop of `guess_letter`: every position holding `c` now shows `c`. */
  function Reveal(guessed: seq<char>, word: string, c: char): (r: seq<char>)
    requires |guessed| == |word|
  {
    seq(|guessed|, i requires 0 <= i < |guessed| => if word[i] == c then c else guessed[i])
  }

  /** `start_game`: a word of the current level, upper-cased, shown as all `_`,
      no letters guessed and six attempts. */
  function Start(g: Game, pick: nat): (r: Game)
    requires g.level in LevelWords && pick < |LevelWords[g.level]|
  {
    var word := Upper(LevelWords[g.level][pick]);
    g.(word := word, guessed := seq(|word|, _ => '_'), letters := {}, attempts := 6)
  }

  /** `reset_game`: back to level 1 with no solved words, then a new round. */
  function Reset(g: Game, pick: nat): (r: Game)
    requires pick < |LevelWords[1]|
  {
    Start(g.(level := 1, counter := 0), pick)
  }

  /** `guess_letter` */
  function Guess(g: Game, c: char): (p: Played)
    requires |g.guessed| == |g.word|
  {
    if c in g.letters then Played(g, AlreadyGuessed)
    else if g.attempts == 0 then Played(g, NoAttemptsLeft)
    else
      var letters := g.letters + {c};
      if c in g.word then
        var guessed := Reveal(g.guessed, g.word, c);
        if '_' !in guessed then
          var counter := g.counter + 1;
          Played(g.(letters := letters, guessed := guessed, counter := counter,
                    level := NextLevel(g.level, counter)), Correct(true))
        else Played(g.(letters := letters, guessed := guessed), Correct(false))
      else
        var attempts := if g.attempts > 0 then g.attempts - 1 else g.attempts;
        Played(g.(letters := letters, attempts := attempts), Wrong(attempts))
  }

  // ---------------------------------------------------------------------------
  // Properties of the rules
  // ---------------------------------------------------------------------------

  /** Revealing a letter on a mask gives the mask of the enlarged set of letters. */
  lemma RevealMask(word: string, letters: set<char>, c: char)
    ensures Reveal(Mask(word, letters), word, c) == Mask(word, letters + {c})
  {
  }

  /** No word of the list holds `_`. */
  predicate NoUnderscoreIn(ws: seq<string>) {
    forall i :: 0 <= i < |ws| ==> '_' !in ws[i]
  }

  // One lemma per level keeps each literal check small.
  lemma Level1NoUnderscore()
    ensures NoUnderscoreIn(LevelWords[1])
  {
  }

  lemma Level2NoUnderscore()
    ensures NoUnderscoreIn(LevelWords[2])
  {
  }

  lemma Level3NoUnderscore()
    ensures NoUnderscoreIn(LevelWords[3])
  {
  }

  /** No listed word holds `_`, the display's placeholder. */
  lemma NoUnderscore(level: int, w: string)
    requires level in LevelWords && w in LevelWords[level]
    ensures '_' !in w
  {
    assert level == 1 || level == 2 || level == 3;
    if level == 1 {
      Level1NoUnderscore();
    } else if level == 2 {
      Level2NoUnderscore();
    } else {
      Level3NoUnderscore();
    }
  }

  /** Upper-casing keeps `_` out, so no word a round starts with holds `_`. */
  lemma StartNoUnderscore(g: Game, pick: nat)
    requires g.level in LevelWords && pick < |LevelWords[g.level]|
    ensures '_' !in Start(g, pick).word
  {
    var w := LevelWords[g.level][pick];
    NoUnderscore(g.level, w);
    UpperAt(w);
    var u := Upper(w);
    forall k | 0 <= k < |u| ensures u[k] != '_' {
      assert w[k] in w;
    }
  }

  /** A word is solved exactly when every letter of it has been guessed, for words
      without `_`. */
  lemma SolvedIff(g: Game)
    requires Inv(g) && '_' !in g.word
    ensures Solved(g) <==> forall i :: 0 <= i < |g.word| ==> g.word[i] in g.letters
  {
    if Solved(g) {
      SolvedAllGuessed(g);
    } else {
      var j :| 0 <= j < |g.guessed| && g.guessed[j] == '_';
      assert g.word[j] != '_';
    }
  }

  /** A solved display means every letter of the word has been guessed, whatever the word. */
  lemma SolvedAllGuessed(g: Game)
    requires Inv(g) && Solved(g)
    ensures forall i :: 0 <= i < |g.word| ==> g.word[i] in g.letters
  {
    forall i | 0 <= i < |g.word| ensures g.word[i] in g.letters {
      assert g.guessed[i] != '_';
    }
  }

  /** On a solved display, a letter not guessed yet is not in the word. */
  lemma SolvedMisses(g: Game, c: char)
    requires Inv(g) && Solved(g) && c !in g.letters
    ensures c !in g.word
  {
    SolvedAllGuessed(g);
    forall i | 0 <= i < |g.word| ensures g.word[i] != c {
      assert g.word[i] in g.letters;
    }
  }

  /** A new round satisfies the invariant and starts from a blank display. */
  lemma StartInv(g: Game, pick: nat)
    requires Inv(g)
    requires g.level in LevelWords && pick < |LevelWords[g.level]|
    ensures Inv(Start(g, pick))
    ensures Start(g, pick).word == Upper(LevelWords[g.level][pick])
    ensures |Start(g, pick).guessed| == |Start(g, pick).word|
    ensures forall i :: 0 <= i < |Start(g, pick).guessed| ==> Start(g, pick).guessed[i] == '_'
    ensures Start(g, pick).letters == {} && Start(g, pick).attempts == 6
    ensures Start(g, pick).level == g.level && Start(g, pick).counter == g.counter
  {
  }

  /** A reset returns to level 1 with no solved words, and satisfies the invariant
      from any state at all. */
  lemma ResetInv(g: Game, pick: nat)
    requires pick < |LevelWords[1]|
    ensures Inv(Reset(g, pick))
    ensures Reset(g, pick).level == 1 && Reset(g, pick).counter == 0
    ensures Reset(g, pick).word == Upper(LevelWords[1][pick])
  {
  }

  /** Every guess keeps the invariant. */
  lemma GuessInv(g: Game, c: char)
    requires Inv(g)
    ensures Inv(Guess(g, c).next)
  {
    if c !in g.letters && g.attempts != 0 {
      RevealMask(g.word, g.letters, c);
      if c in g.word {
        LevelStep(g.counter);
      } else {
        assert Mask(g.word, g.letters + {c}) == Mask(g.word, g.letters);
      }
    }
  }

  /** A letter already guessed changes nothing. */
  lemma GuessRepeated(g: Game, c: char)
    requires |g.guessed| == |g.word|
    requires c in g.letters
    ensures Guess(g, c) == Played(g, AlreadyGuessed)
  {
  }

  /** With no attempts left a new letter changes nothing. */
  lemma GuessExhausted(g: Game, c: char)
    requires |g.guessed| == |g.word|
    requires c !in g.letters && g.attempts == 0
    ensures Guess(g, c) == Played(g, NoAttemptsLeft)
  {
  }

  /** A new letter of the word reveals exactly its positions, keeps the attempts,
      and joins the guessed letters. */
  lemma GuessHit(g: Game, c: char)
    requires Inv(g)
    requires c !in g.letters && g.attempts != 0 && c in g.word
    ensures var n := Guess(g, c).next;
      n.word == g.word && n.attempts == g.attempts && n.letters == g.letters + {c} &&
      |n.guessed| == |g.guessed| &&
      (forall i :: 0 <= i < |g.word| && g.word[i] == c ==> n.guessed[i] == c) &&
      (forall i :: 0 <= i < |g.word| && g.word[i] != c ==> n.guessed[i] == g.guessed[i])
    ensures Guess(g, c).feedback.Correct?
  {
  }

  /** A new letter not in the word costs exactly one attempt, never going below
      zero, and leaves the display, the counter and the level alone. */
  lemma GuessMiss(g: Game, c: char)
    requires Inv(g)
    requires c !in g.letters && g.attempts != 0 && c !in g.word
    ensures var n := Guess(g, c).next;
      n.attempts == g.attempts - 1 && n.attempts >= 0 && n.guessed == g.guessed &&
      n.counter == g.counter && n.level == g.level && n.word == g.word &&
      n.letters == g.letters + {c}
    ensures Guess(g, c).feedback == Wrong(g.attempts - 1)
  {
  }

  /** The counter grows by one exactly when a guess completes an unsolved word,
      and by nothing otherwise. */
  lemma CounterStep(g: Game, c: char)
    requires Inv(g)
    ensures var n := Guess(g, c).next;
      (n.counter == g.counter + 1 <==> !Solved(g) && Solved(n) && c in g.word && c !in g.letters) &&
      (n.counter == g.counter || n.counter == g.counter + 1)
  {
    var n := Guess(g, c).next;
    if c !in g.letters && g.attempts != 0 && c !in g.word {
      assert n.guessed == g.guessed;
    }
    if Solved(g) && c !in g.letters {
      SolvedMisses(g, c);
    }
  }

  /** Once the word is solved no guess adds to the counter again: the letters of
      the word are all guessed, so a new letter is a miss. */
  lemma CounterOncePerWord(g: Game, c: char)
    requires Inv(g) && Solved(g)
    ensures Guess(g, c).next.counter == g.counter
    ensures Solved(Guess(g, c).next)
  {
    if c !in g.letters {
      SolvedMisses(g, c);
    }
  }

  /** `monitor` is one of the words `extend` adds to level 2, and it is played as `MONITOR`. */
  lemma MonitorIsPlayed()
    ensures "monitor" in LevelWords[2]
    ensures Upper("monitor") == "MONITOR"
  {
    assert LevelWords[2][10] == "monitor";
    UpperAt("monitor");
  }

  /** Neither the first table of hints nor the `update` has an entry for `MONITOR`. */
  lemma MonitorNotListed()
    ensures "MONITOR" !in BaseHints && "MONITOR" !in ExtraHints
  {
  }

  /** So the hint shown for `MONITOR` is the fallback text. */
  lemma MonitorHasNoHint()
    ensures Hint("MONITOR") == NoHint
  {
    MonitorNotListed();
  }

  /** An entry of the `update` replaces any earlier hint for its word. */
  lemma ExtraHintsWin(word: string)
    requires word in ExtraHints
    ensures Hint(word) == ExtraHints[word]
  {
  }

  // ---------------------------------------------------------------------------
  // The game object
  // ---------------------------------------------------------------------------

  class HangmanGame {
    var level: int
    var correctGuessCounter: nat
    var remainingAttempts: int
    var word: string
    var guessed: array<char>
    var guessedLetters: set<char>

    /** The fields as a `Game` value. */
    function State(): Game
      reads this, guessed
    {
      Game(level, correctGuessCounter, remainingAttempts, word, guessed[..], guessedLetters)
    }

    predicate Valid()
      reads this, guessed
    {
      Inv(State())
    }

    /** `__init__`: level 1, nothing solved, and a first round. */
    constructor(pick: nat)
      requires pick < |LevelWords[1]|
      ensures State() == Start(Game(1, 0, 6, "", [], {}), pick)
      ensures Valid()
    {
      level := 1;
      correctGuessCounter := 0;
      remainingAttempts := 6;
      word := "";
      guessed := new char[0];
      guessedLetters := {};
      new;
      StartGame(pick);
    }

    /** `start_game` */
    method StartGame(pick: nat)
      requires level in LevelWords && pick < |LevelWords[level]|
      modifies this
      ensures fresh(guessed)
      ensures State() == Start(old(State()), pick)
      ensures old(Valid()) ==> Valid()
    {
      ghost var g := State();
      word := Upper(LevelWords[level][pick]);
      guessed := new char[|word|](_ => '_');
      guessedLetters := {};
      remainingAttempts := 6;
      assert guessed[..] == Start(g, pick).guessed;
    }

    /** `reset_game` */
    method ResetGame(pick: nat)
      requires pick < |LevelWords[1]|
      modifies this
      ensures fresh(guessed)
      ensures State() == Reset(old(State()), pick)
      ensures Valid()
    {
      level := 1;
      correctGuessCounter := 0;
      StartGame(pick);
      ResetInv(old(State()), pick);
    }

    /** `next_word`: a new round at the current level. */
    method NextWord(pick: nat)
      requires Valid() && pick < |LevelWords[level]|
      modifies this
      ensures fresh(guessed)
      ensures State() == Start(old(State()), pick)
      ensures Valid()
    {
      StartGame(pick);
    }

    /** `check_level_up` */
    method CheckLevelUp()
      modifies this
      ensures level == NextLevel(old(level), correctGuessCounter)
      ensures correctGuessCounter == old(correctGuessCounter) && remainingAttempts == old(remainingAttempts)
      ensures word == old(word) && guessed == old(guessed) && guessedLetters == old(guessedLetters)
    {
      if correctGuessCounter >= 5 && level == 1 {
        level := 2;
      } else if correctGuessCounter >= 15 && level == 2 {
        level := 3;
      }
    }

    /** `guess_letter` */
    method GuessLetter(letter: char) returns (feedback: Feedback)
      requires Valid()
      modifies this, guessed
      ensures guessed == old(guessed)
      ensures Played(State(), feedback) == Guess(old(State()), letter)
      ensures Valid()
    {
      ghost var g := State();
      GuessInv(g, letter);
      if letter in guessedLetters {
        return AlreadyGuessed;
      }
      if remainingAttempts == 0 {
        return NoAttemptsLeft;
      }
      guessedLetters := guessedLetters + {letter};
      if letter in word {
        for i := 0 to |word|
          invariant guessed == old(guessed) && word == g.word && guessed.Length == |word|
          invariant guessedLetters == g.letters + {letter}
          invariant level == g.level && correctGuessCounter == g.counter && remainingAttempts == g.attempts
          invariant forall k :: 0 <= k < i ==> guessed[k] == (if word[k] == letter then letter else g.guessed[k])
          invariant forall k :: i <= k < |word| ==> guessed[k] == g.guessed[k]
        {
          if word[i] == letter {
            guessed[i] := letter;
          }
        }
        assert guessed[..] == Reveal(g.guessed, word, letter);
        if '_' !in guessed[..] {
          correctGuessCounter := correctGuessCounter + 1;
          CheckLevelUp();
          return Correct(true);
        }
        return Correct(false);
      } else {
        if remainingAttempts > 0 {
          remainingAttempts := remainingAttempts - 1;
        }
        return Wrong(remainingAttempts);
      }
    }

    /** The lookup of `show_hint` for the current word. */
    method ShowHint() returns (hint: string)
      ensures hint == Hint(word)
    {
      hint := Hint(word);
    }
  }
}
