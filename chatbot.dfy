/** The reply engine of the chat widget (`ChatbotCore.get_reply` in chatbot.py):
    its constants, a pure first-match dispatch over the normalised text, and what
    that dispatch promises. The class that holds the state is in ChatbotSession. */
module Chatbot {
  import opened PyStr

  datatype Option<T> = None | Some(value: T)

  /** One riddle: its question `q` and its answer `a`, as in the `RIDDLES` records. */
  datatype Riddle = Riddle(q: string, a: string)

  /** The two fields `current_riddle` and `riddle_active`. */
  datatype RiddleState = RiddleState(current: Option<Riddle>, active: bool)

  /** The flags `get_reply` may put in its `meta` dictionary; an absent key is `false`. */
  datatype Meta = Meta(clearRiddle: bool, riddleQuestion: bool)

  const NoMeta := Meta(false, false)

  /** The outcomes of `random.choice`: an index into `RIDDLES`, into the jokes and into
      the facts. A dispatch uses at most one of them. */
  datatype Draw = Draw(riddle: nat, joke: nat, fact: nat)

  /** What one dispatch produces: the reply text, the flags and the new riddle fields. */
  datatype Outcome = Outcome(reply: string, meta: Meta, next: RiddleState)

  // The built-in jokes and facts, each written as three short pieces: the verifier
  // reasons about short literals far more cheaply than about long ones.
  const Joke0 := "Why don't scientists " + "trust atoms? Because " + "they make up everything!"
  const Joke1 := "Why did the computer " + "go to the doctor? " + "Because it had a virus!"
  const Joke2 := "What do you call " + "fake spaghetti? " + "An impasta!"
  const Fact0 := "Honey never spoils. " + "Archaeologists found edible " + "honey in ancient Egyptian tombs."
  const Fact1 := "Bananas are berries, " + "but strawberries " + "aren't."
  const Fact2 := "Octopuses " + "have three " + "hearts."

  const DefaultJokes: seq<string> := [Joke0, Joke1, Joke2]

  const DefaultFacts: seq<string> := [Fact0, Fact1, Fact2]

  const ConvoMap: map<string, string> := map[
    "hello" := "Hi!",
    "hi" := "Hello!",
    "hey" := "Hey there!",
    "how are you" := "I'm fine, thanks! How can I help you today?",
    "what's up" := "All good here \U{E2}\U{20AC}\U{201D} ready to chat!",
    "bye" := "Goodbye! Have a great day!",
    "goodbye" := "See you later!",
    "thanks" := "You're welcome!",
    "thank you" := "Anytime!",
    "how are you doing?" := "I\U{E2}\U{20AC}\U{2122}m doing well",
    "good morning" := "A very wonderful morning to you and your family",
    "good afternoon" := "Good afternoon User",
    "good evening" := "Same to u\U{F0}\U{178}\U{A5}\U{B0}",
    "good night" := "Good night... take care"
  ]

  const EchoQuestion :=
    "I speak without a mouth and hear without ears. I have nobody, but I come alive with wind. What am I?"
  const PencilQuestion := "I come from a mine and get surrounded by wood always. Everyone uses me. What am I?"
  const PianoQuestion := "What has keys but can't open locks?"

  const Riddles: seq<Riddle> := [
    Riddle(EchoQuestion, "echo "),
    Riddle(PencilQuestion, "pencil lead"),
    Riddle(PianoQuestion, "piano")
  ]

  /** The substrings that trigger the canned "how are you" reply. */
  const HowAreProbes: seq<string> := ["how are", "how's it going", "how are you doing"]

  /** The phrases that ask for a riddle, upper-case variants included. */
  const RiddleRequests: seq<string> :=
    ["riddle", "riddles", "ask riddle", "give me a riddle", "RIDDLES", "RIDDLE", "please give me a riddle"]

  const CongratsReply := "Congrats! That's correct \U{F0}\U{178}\U{17D}\U{2030}"
  const SkippedPrefix := "Riddle skipped...\n The correct answer is: "
  const RetryReply := "Not quite. Try again or type 'skip' to get the answer."
  const ShownPrefix := "The answer is: "
  const NoRiddleReply := "No active riddle to skip. Try 'Riddles' to get one."
  const FallbackReply := "I didn't get that. Try: 'hello', 'how are you', 'riddles', 'jokes', or 'facts'."

  /** The state `ChatbotCore.__init__` creates: active, but with no riddle. */
  const Initial := RiddleState(None, true)

  /** The state `stop_riddle` leaves behind. */
  const Idle := RiddleState(None, false)

  /** The guard of the riddle branch: `riddle_active and current_riddle`. */
  predicate Asked(st: RiddleState) {
    st.active && st.current.Some?
  }

  /** `user_text.strip().lower()` */
  function Normalize(userText: string): string {
    Lower(Strip(userText))
  }

  /** `current_riddle["a"].strip().lower()` */
  function Expected(r: Riddle): string {
    Lower(Strip(r.a))
  }

  /** The answer test of the riddle branch: equal, or either one contains the other. */
  predicate AnswerMatches(expected: string, ans: string) {
    expected == ans || Contains(ans, expected) || Contains(expected, ans)
  }

  /** `any(g in text for g in probes)` */
  predicate ContainsAny(text: string, probes: seq<string>) {
    exists i :: 0 <= i < |probes| && Contains(text, probes[i])
  }

  /** Which of the branches of `get_reply` a dispatch takes. */
  datatype Route =
    | RiddleCorrect
    | RiddleSkipped(expected: string)
    | RiddleRetry
    | SmallTalk(key: string)
    | HowAre
    | AskRiddle
    | ShowAnswer
    | NothingToSkip
    | Joke
    | Fact
    | Fallback

  /** The first-match chain of `get_reply`, written in the source's order. The
      conditions the source writes but that can never hold (upper-case "SKIP",
      "RIDDLES", and the answer path under a top-level "skip") are kept. */
  function RouteOf(st: RiddleState, userText: string): (r: Route)
    ensures r.SmallTalk? ==> r.key in ConvoMap && r.key == Normalize(userText)
    ensures Asked(st) <==> (r.RiddleCorrect? || r.RiddleSkipped? || r.RiddleRetry?)
  {
    var text := Normalize(userText);
    if Asked(st) then
      var expected := Expected(st.current.value);
      var ans := Collapse(text);
      if AnswerMatches(expected, ans) then RiddleCorrect
      else if ans == "skip" || ans == "SKIP" || ans == "Skip" then RiddleSkipped(expected)
      else RiddleRetry
    else if text in ConvoMap then SmallTalk(text)
    else if ContainsAny(text, HowAreProbes) then HowAre
    else if text in RiddleRequests then AskRiddle
    else if text == "skip" then
      if st.active && st.current.Some? then ShowAnswer else NothingToSkip
    else if Contains(text, "joke") then Joke
    else if Contains(text, "fact") || Contains(text, "did you know") then Fact
    else Fallback
  }

  /** A draw that `random.choice` could return for these lists. */
  predicate Fits(d: Draw, jokes: seq<string>, facts: seq<string>) {
    d.riddle < |Riddles| && d.joke < |jokes| && d.fact < |facts|
  }

  /** `get_reply`: the reply, the `meta` flags and the new riddle fields. Only the
      riddle request changes the fields; jokes and facts are only read. */
  function Respond(st: RiddleState, jokes: seq<string>, facts: seq<string>, userText: string, d: Draw): (o: Outcome)
    requires Fits(d, jokes, facts)
    ensures o.next == st || o.next == RiddleState(Some(Riddles[d.riddle]), true)
  {
    Reply(RouteOf(st, userText), st, jokes, facts, d)
  }

  /** The reply, flags and new riddle fields of each branch of `get_reply`. */
  function Reply(route: Route, st: RiddleState, jokes: seq<string>, facts: seq<string>, d: Draw): (o: Outcome)
    requires Fits(d, jokes, facts)
    requires route.SmallTalk? ==> route.key in ConvoMap
    ensures o.next == st || o.next == RiddleState(Some(Riddles[d.riddle]), true)
    ensures o.meta.clearRiddle <==>
      route.RiddleCorrect? || route.RiddleSkipped? || route.ShowAnswer? || route in {SmallTalk("bye"), SmallTalk("goodbye")}
    ensures o.meta.riddleQuestion <==> route.AskRiddle?
  {
    match route
    case RiddleCorrect => Outcome(CongratsReply, Meta(true, false), st)
    case RiddleSkipped(expected) => Outcome(SkippedPrefix + expected, Meta(true, false), st)
    case RiddleRetry => Outcome(RetryReply, NoMeta, st)
    case SmallTalk(key) => Outcome(ConvoMap[key], Meta(key == "bye" || key == "goodbye", false), st)
    case HowAre => Outcome(ConvoMap["how are you"], NoMeta, st)
    case AskRiddle =>
      var r := Riddles[d.riddle];
      Outcome(r.q, Meta(false, true), RiddleState(Some(r), true))
    case ShowAnswer =>
      var ans := match st.current case Some(r) => r.a case None => "";
      Outcome(ShownPrefix + ans, Meta(true, false), st)
    case NothingToSkip => Outcome(NoRiddleReply, NoMeta, st)
    case Joke => Outcome(jokes[d.joke], NoMeta, st)
    case Fact => Outcome(facts[d.fact], NoMeta, st)
    case Fallback => Outcome(FallbackReply, NoMeta, st)
  }

  /** One message through `_process_user_text`: the dispatch, then `stop_riddle()`
      when the reply asks for it. */
  function Turn(st: RiddleState, jokes: seq<string>, facts: seq<string>, userText: string, d: Draw): (o: Outcome)
    requires Fits(d, jokes, facts)
    ensures o.reply == Respond(st, jokes, facts, userText, d).reply
    ensures o.meta.clearRiddle ==> o.next == Idle
  {
    var o := Respond(st, jokes, facts, userText, d);
    if o.meta.clearRiddle then o.(next := Idle) else o
  }

  // ---------------------------------------------------------------------------
  // The riddle fields
  // ---------------------------------------------------------------------------

  /** Two states that every dispatch treats alike: the same answer to the riddle
      guard and, when it holds, the same riddle. */
  predicate SameBehaviour(s1: RiddleState, s2: RiddleState) {
    Asked(s1) == Asked(s2) && (Asked(s1) ==> s1.current == s2.current)
  }

  /** States that agree on the riddle guard give the same reply and flags, and
      move to states that again agree: the two are indistinguishable forever. */
  lemma SameBehaviourBisimilar(s1: RiddleState, s2: RiddleState, jokes: seq<string>, facts: seq<string>,
                               userText: string, d: Draw)
    requires Fits(d, jokes, facts)
    requires SameBehaviour(s1, s2)
    ensures var o1, o2 := Respond(s1, jokes, facts, userText, d), Respond(s2, jokes, facts, userText, d);
      o1.reply == o2.reply && o1.meta == o2.meta && SameBehaviour(o1.next, o2.next)
    ensures var o1, o2 := Turn(s1, jokes, facts, userText, d), Turn(s2, jokes, facts, userText, d);
      o1.reply == o2.reply && o1.meta == o2.meta && SameBehaviour(o1.next, o2.next)
  {
    assert RouteOf(s1, userText) == RouteOf(s2, userText);
  }

  /** The dispatch sees a message only through its normal form: two messages that
      normalise alike get the same reply, flags and new state. */
  lemma TurnSeesNormalForm(st: RiddleState, jokes: seq<string>, facts: seq<string>,
                           u1: string, u2: string, d: Draw)
    requires Fits(d, jokes, facts)
    requires Normalize(u1) == Normalize(u2)
    ensures Respond(st, jokes, facts, u1, d) == Respond(st, jokes, facts, u2, d)
    ensures Turn(st, jokes, facts, u1, d) == Turn(st, jokes, facts, u2, d)
  {
    assert RouteOf(st, u1) == RouteOf(st, u2);
  }

  /** The state the constructor builds (`riddle_active` true, no riddle) behaves
      exactly like the idle state `stop_riddle` leaves. */
  lemma InitialActsIdle(jokes: seq<string>, facts: seq<string>, userText: string, d: Draw)
    requires Fits(d, jokes, facts)
    ensures var o1, o2 := Respond(Initial, jokes, facts, userText, d), Respond(Idle, jokes, facts, userText, d);
      o1.reply == o2.reply && o1.meta == o2.meta && SameBehaviour(o1.next, o2.next)
  {
    SameBehaviourBisimilar(Initial, Idle, jokes, facts, userText, d);
  }

  /** The states a session can reach: a riddle is only ever held while active,
      and it is one of `RIDDLES`. */
  predicate Reachable(st: RiddleState) {
    st.current.Some? ==> st.active && st.current.value in Riddles
  }

  /** Every turn keeps the session within the reachable states, starting from
      the constructor's state. */
  lemma TurnReachable(st: RiddleState, jokes: seq<string>, facts: seq<string>, userText: string, d: Draw)
    requires Fits(d, jokes, facts)
    requires Reachable(st)
    ensures Reachable(Turn(st, jokes, facts, userText, d).next)
    ensures Reachable(Initial) && Reachable(Idle)
  {
  }

  // ---------------------------------------------------------------------------
  // An active riddle
  // ---------------------------------------------------------------------------

  /** While a riddle is asked, every message is taken by the riddle branch: the
      answer test first, then "skip", and the retry prompt for anything else.
      No later branch is ever reached. */
  lemma AskedRoute(st: RiddleState, userText: string)
    requires Asked(st)
    ensures var e, ans := Expected(st.current.value), Collapse(Normalize(userText));
      RouteOf(st, userText) ==
        if AnswerMatches(e, ans) then RiddleCorrect
        else if ans == "skip" then RiddleSkipped(e)
        else RiddleRetry
  {
    UpperSkipUnreachable(userText);
  }

  /** An answer is congratulated, with `clear_riddle`, exactly when the expected
      answer and the collapsed input are equal or one contains the other. */
  lemma RiddleAnswerIff(st: RiddleState, jokes: seq<string>, facts: seq<string>, userText: string, d: Draw)
    requires Fits(d, jokes, facts)
    requires Asked(st)
    ensures var o := Respond(st, jokes, facts, userText, d);
      var ok := AnswerMatches(Expected(st.current.value), Collapse(Normalize(userText)));
      (o.reply == CongratsReply <==> ok) && (ok ==> o.meta == Meta(true, false)) && o.next == st
  {
    AskedRoute(st, userText);
    var e := Expected(st.current.value);
    assert |SkippedPrefix + e| > |CongratsReply| && RetryReply != CongratsReply;
  }

  /** A wrong answer that collapses to "skip" reveals the expected answer and
      clears the riddle; any other wrong answer gets the retry prompt and no flags. */
  lemma RiddleWrongAnswer(st: RiddleState, jokes: seq<string>, facts: seq<string>, userText: string, d: Draw)
    requires Fits(d, jokes, facts)
    requires Asked(st)
    requires !AnswerMatches(Expected(st.current.value), Collapse(Normalize(userText)))
    ensures var o := Respond(st, jokes, facts, userText, d);
      if Collapse(Normalize(userText)) == "skip" then
        o.reply == SkippedPrefix + Expected(st.current.value) && o.meta == Meta(true, false) && o.next == st
      else
        o.reply == RetryReply && o.meta == NoMeta && o.next == st
  {
    AskedRoute(st, userText);
  }

  /** The text is lower-cased before any test, so no upper-case letter survives
      into `text` or `user_ans`. */
  lemma NormalizedHasNoUpper(userText: string)
    ensures NoUpper(Normalize(userText))
    ensures NoUpper(Collapse(Normalize(userText)))
  {
    LowerAt(Strip(userText));
    CollapseNoUpper(Normalize(userText));
  }

  /** The upper-case comparisons `user_ans == "SKIP"` and `user_ans == "Skip"` can never hold. */
  lemma UpperSkipUnreachable(userText: string)
    ensures Collapse(Normalize(userText)) != "SKIP"
    ensures Collapse(Normalize(userText)) != "Skip"
  {
    NormalizedHasNoUpper(userText);
    assert IsUpper("SKIP"[0]) && IsUpper("Skip"[0]);
  }

  /** An empty or whitespace-only answer counts as correct for every riddle,
      because the empty string occurs in every string. */
  lemma BlankAnswerIsCorrect(st: RiddleState, jokes: seq<string>, facts: seq<string>, userText: string, d: Draw)
    requires Fits(d, jokes, facts)
    requires Asked(st)
    requires forall k :: 0 <= k < |userText| ==> IsSpace(userText[k])
    ensures Respond(st, jokes, facts, userText, d) == Outcome(CongratsReply, Meta(true, false), st)
  {
    StripBlankIff(userText);
    assert Normalize(userText) == [];
    CollapseBlank(Normalize(userText));
    ContainsTrivial(Expected(st.current.value));
    assert RouteOf(st, userText) == RiddleCorrect;
  }

  /** A message without whitespace at its ends and without upper-case letters is its own normal form. */
  lemma NormalizeClean(s: string)
    requires s != [] && !IsSpace(s[0]) && !IsSpace(s[|s| - 1])
    requires NoUpper(s)
    ensures Normalize(s) == s
  {
    StripTrimmed(s);
    LowerClean(s);
  }

  /** A single lower-case word is its own normal form and its own collapsed answer. */
  lemma CleanWord(s: string)
    requires s != [] && forall k :: 0 <= k < |s| ==> IsLower(s[k])
    ensures Normalize(s) == s && Collapse(s) == s
  {
    NormalizeClean(s);
    CollapseWord(s);
  }

  /** The expected answers of the three riddles; the trailing blank of "echo " is stripped. */
  lemma RiddleAnswers()
    ensures Expected(Riddles[0]) == "echo"
    ensures Expected(Riddles[1]) == "pencil lead"
    ensures Expected(Riddles[2]) == "piano"
  {
    EchoAnswer();
    PencilAnswer();
    PianoAnswer();
  }

  lemma EchoAnswer()
    ensures Expected(Riddles[0]) == "echo"
  {
    assert Riddles[0].a == "echo ";
    assert Strip("echo ") == "echo" by {
      assert Lstrip("echo ") == "echo ";
      assert "echo "[..4] == "echo";
    }
    LowerClean("echo");
  }

  lemma PencilAnswer()
    ensures Expected(Riddles[1]) == "pencil lead"
  {
    assert Riddles[1].a == "pencil lead";
    StripTrimmed("pencil lead");
    LowerClean("pencil lead");
  }

  lemma PianoAnswer()
    ensures Expected(Riddles[2]) == "piano"
  {
    assert Riddles[2].a == "piano";
    StripTrimmed("piano");
    LowerClean("piano");
  }

  /** Any message that collapses to "lead" answers the riddle whose answer is
      "pencil lead": containment suffices. */
  lemma PartialAnswerAccepted(st: RiddleState, jokes: seq<string>, facts: seq<string>, userText: string, d: Draw)
    requires Fits(d, jokes, facts)
    requires st.active && st.current == Some(Riddles[1])
    requires Collapse(Normalize(userText)) == "lead"
    ensures var o := Respond(st, jokes, facts, userText, d);
      o.reply == CongratsReply && o.meta == Meta(true, false) && o.next == st
  {
    PencilAnswer();
    LeadInPencilLead();
    AskedRoute(st, userText);
  }

  lemma LeadInPencilLead()
    ensures AnswerMatches("pencil lead", "lead")
  {
    assert OccursAt("pencil lead", "lead", 7);
    ContainsIff("pencil lead", "lead");
  }

  /** Containment runs both ways, so a single letter of the answer is accepted:
      "a" answers the riddle whose answer is "piano". */
  lemma LetterAnswerAccepted(st: RiddleState, jokes: seq<string>, facts: seq<string>, userText: string, d: Draw)
    requires Fits(d, jokes, facts)
    requires st.active && st.current == Some(Riddles[2])
    requires Collapse(Normalize(userText)) == "a"
    ensures var o := Respond(st, jokes, facts, userText, d);
      o.reply == CongratsReply && o.meta == Meta(true, false) && o.next == st
  {
    PianoAnswer();
    assert OccursAt("piano", "a", 2);
    ContainsIff("piano", "a");
    AskedRoute(st, userText);
  }

  /** The answer is matched case-insensitively and without surrounding blanks:
      "Echo", " ECHO " and "echo" all answer the echo riddle. */
  lemma CaseInsensitiveAnswer(st: RiddleState, jokes: seq<string>, facts: seq<string>, userText: string, d: Draw)
    requires Fits(d, jokes, facts)
    requires st.active && st.current == Some(Riddles[0])
    requires Normalize(userText) == "echo"
    ensures var o := Respond(st, jokes, facts, userText, d);
      o.reply == CongratsReply && o.meta == Meta(true, false) && o.next == st
  {
    EchoAnswer();
    CollapseWord("echo");
    AskedRoute(st, userText);
  }

  /** Examples of the normal form: case and surrounding blanks are dropped. */
  lemma NormalizeExamples()
    ensures Normalize("Echo") == "echo"
    ensures Normalize(" ECHO ") == "echo"
  {
    StripTrimmed("Echo");
    LowerAt("Echo");
    assert Lower("Echo") == "echo";
    assert Strip(" ECHO ") == "ECHO" by {
      assert Lstrip(" ECHO ") == "ECHO ";
      assert "ECHO "[..4] == "ECHO";
    }
    LowerAt("ECHO");
    assert Lower("ECHO") == "echo";
  }

  /** "skip" reveals the echo riddle's stripped answer and clears the riddle. */
  lemma SkipRevealsAnswer(st: RiddleState, jokes: seq<string>, facts: seq<string>, userText: string, d: Draw)
    requires Fits(d, jokes, facts)
    requires st.active && st.current == Some(Riddles[0])
    requires Collapse(Normalize(userText)) == "skip"
    ensures var o := Respond(st, jokes, facts, userText, d);
      o.reply == SkippedPrefix + "echo" && o.meta == Meta(true, false) && o.next == st
  {
    EchoAnswer();
    SkipMissesEcho();
    AskedRoute(st, userText);
  }

  lemma SkipMissesEcho()
    ensures !AnswerMatches("echo", "skip")
  {
    NotContains("echo", "skip", 's');
    NotContains("skip", "echo", 'e');
  }

  /** `msg` is neither the answer of any riddle, nor contains it, nor is contained in it. */
  predicate MissesAllRiddles(msg: string) {
    forall i :: 0 <= i < |Riddles| ==> !AnswerMatches(Expected(Riddles[i]), msg)
  }

  /** A character of `msg` missing from `e` and one of `e` missing from `msg` rule out every match. */
  lemma MissesBy(e: string, msg: string, inMsg: char, inE: char)
    requires inMsg in msg && inMsg !in e
    requires inE in e && inE !in msg
    ensures !AnswerMatches(e, msg)
  {
    NotContains(e, msg, inMsg);
    NotContains(msg, e, inE);
  }

  /** A message misses every riddle when, for each answer, it holds a character
      the answer lacks and lacks a character the answer holds. */
  lemma MissesAllBy(msg: string, echoOut: char, echoIn: char, pencilOut: char, pencilIn: char,
                    pianoOut: char, pianoIn: char)
    requires echoOut in msg && echoOut !in "echo" && echoIn in "echo" && echoIn !in msg
    requires pencilOut in msg && pencilOut !in "pencil lead" && pencilIn in "pencil lead" && pencilIn !in msg
    requires pianoOut in msg && pianoOut !in "piano" && pianoIn in "piano" && pianoIn !in msg
    ensures MissesAllRiddles(msg)
  {
    forall i | 0 <= i < |Riddles| ensures !AnswerMatches(Expected(Riddles[i]), msg) {
      if i == 0 {
        EchoAnswer();
        MissesBy("echo", msg, echoOut, echoIn);
      } else if i == 1 {
        PencilAnswer();
        MissesBy("pencil lead", msg, pencilOut, pencilIn);
      } else {
        PianoAnswer();
        MissesBy("piano", msg, pianoOut, pianoIn);
      }
    }
  }

  lemma RiddlesMissesAll()
    ensures MissesAllRiddles("riddles")
  {
    MissesAllBy("riddles", 'r', 'c', 'r', 'p', 'r', 'p');
  }

  lemma HelloMissesAll()
    ensures MissesAllRiddles("hello")
  {
    MissesAllBy("hello", 'l', 'c', 'h', 'p', 'h', 'p');
  }

  /** A message other than "skip" whose collapsed form matches no riddle answer
      gets the retry prompt, with no flags, while a riddle is active. */
  lemma MissWhileActive(i: nat, jokes: seq<string>, facts: seq<string>, userText: string, d: Draw)
    requires Fits(d, jokes, facts)
    requires i < |Riddles|
    requires Collapse(Normalize(userText)) != "skip" && MissesAllRiddles(Collapse(Normalize(userText)))
    ensures var st := RiddleState(Some(Riddles[i]), true);
      var o := Respond(st, jokes, facts, userText, d);
      o.reply == RetryReply && o.meta == NoMeta && o.next == st
  {
    AskedRoute(RiddleState(Some(Riddles[i]), true), userText);
  }

  /** Greetings and riddle requests sent while a riddle is active, including the
      "riddles" the Riddles button sends, get the retry prompt. */
  lemma ActiveRiddleSwallowsCommands(i: nat, jokes: seq<string>, facts: seq<string>, userText: string, d: Draw)
    requires Fits(d, jokes, facts)
    requires i < |Riddles|
    requires Normalize(userText) == "riddles" || Normalize(userText) == "hello"
    ensures Respond(RiddleState(Some(Riddles[i]), true), jokes, facts, userText, d).reply == RetryReply
  {
    if Normalize(userText) == "riddles" {
      CollapseWord("riddles");
      RiddlesMissesAll();
    } else {
      CollapseWord("hello");
      HelloMissesAll();
    }
    MissWhileActive(i, jokes, facts, userText, d);
  }

  // ---------------------------------------------------------------------------
  // No active riddle
  // ---------------------------------------------------------------------------

  /** An exact `CONVO_MAP` phrase gets its mapped reply; only "bye" and "goodbye"
      set `clear_riddle`; the state is unchanged. */
  lemma SmallTalkReply(st: RiddleState, jokes: seq<string>, facts: seq<string>, userText: string, d: Draw)
    requires Fits(d, jokes, facts)
    requires !Asked(st)
    requires Normalize(userText) in ConvoMap
    ensures var o := Respond(st, jokes, facts, userText, d);
      o.reply == ConvoMap[Normalize(userText)] && o.next == st &&
      o.meta == Meta(Normalize(userText) in {"bye", "goodbye"}, false)
  {
    assert RouteOf(st, userText) == SmallTalk(Normalize(userText));
  }

  /** The exact phrase "how are you doing?" wins over the "how are" substring test
      that it also passes. */
  lemma ExactBeatsFuzzy(st: RiddleState, jokes: seq<string>, facts: seq<string>, userText: string, d: Draw)
    requires Fits(d, jokes, facts)
    requires !Asked(st)
    requires Normalize(userText) == "how are you doing?"
    ensures Contains(Normalize(userText), "how are")
    ensures Respond(st, jokes, facts, userText, d).reply == ConvoMap["how are you doing?"]
    ensures ConvoMap["how are you doing?"] != ConvoMap["how are you"]
  {
    assert OccursAt("how are you doing?", "how are", 0);
    ContainsIff("how are you doing?", "how are");
    SmallTalkReply(st, jokes, facts, userText, d);
  }

  /** "bye" answers "Goodbye! Have a great day!" and the turn ends idle. */
  lemma ByeClearsRiddle(st: RiddleState, jokes: seq<string>, facts: seq<string>, d: Draw)
    requires Fits(d, jokes, facts)
    requires !Asked(st)
    ensures var o := Turn(st, jokes, facts, "bye", d);
      o.reply == ConvoMap["bye"] && o.meta == Meta(true, false) && o.next == Idle
  {
    CleanWord("bye");
    SmallTalkReply(st, jokes, facts, "bye", d);
  }

  /** A message that contains "how are" but is no exact phrase gets the
      "how are you" reply, with no flags. */
  lemma FuzzyHowAre(st: RiddleState, jokes: seq<string>, facts: seq<string>, userText: string, d: Draw)
    requires Fits(d, jokes, facts)
    requires !Asked(st)
    requires Normalize(userText) !in ConvoMap
    requires ContainsAny(Normalize(userText), HowAreProbes)
    ensures var o := Respond(st, jokes, facts, userText, d);
      o.reply == ConvoMap["how are you"] && o.meta == NoMeta && o.next == st
  {
    assert RouteOf(st, userText) == HowAre;
  }

  /** "how's it going", the second probe, gets the canned "how are you" reply. */
  lemma HowIsItGoing(st: RiddleState, jokes: seq<string>, facts: seq<string>, userText: string, d: Draw)
    requires Fits(d, jokes, facts)
    requires !Asked(st)
    requires Normalize(userText) == "how's it going"
    ensures var o := Respond(st, jokes, facts, userText, d);
      o.reply == ConvoMap["how are you"] && o.meta == NoMeta && o.next == st
  {
    var t := Normalize(userText);
    assert |t| == 14;
    assert t !in ConvoMap;
    ContainsTrivial(t);
    assert HowAreProbes[1] == t;
    FuzzyHowAre(st, jokes, facts, userText, d);
  }

  /** The upper-case request phrases "RIDDLES" and "RIDDLE" can never match. */
  lemma UpperRequestsUnreachable(userText: string)
    ensures Normalize(userText) != "RIDDLES" && Normalize(userText) != "RIDDLE"
    ensures Normalize(userText) in RiddleRequests <==>
      Normalize(userText) in ["riddle", "riddles", "ask riddle", "give me a riddle", "please give me a riddle"]
  {
    NormalizedHasNoUpper(userText);
    assert IsUpper("RIDDLES"[0]) && IsUpper("RIDDLE"[0]);
  }

  /** None of the riddle requests is a small-talk phrase or holds a "how are" probe. */
  lemma RequestsPassEarlierTests(i: nat)
    requires i < |RiddleRequests|
    ensures RiddleRequests[i] !in ConvoMap && !ContainsAny(RiddleRequests[i], HowAreProbes)
  {
    var t := RiddleRequests[i];
    assert 'h' !in t;
    forall j | 0 <= j < |HowAreProbes| ensures !Contains(t, HowAreProbes[j]) {
      assert HowAreProbes[j][0] == 'h';
      NotContains(t, HowAreProbes[j], 'h');
    }
  }

  /** A riddle request sets the drawn riddle as current, makes it active, flags
      `riddle_question` and answers with its question. */
  lemma RiddleRequest(st: RiddleState, jokes: seq<string>, facts: seq<string>, userText: string, d: Draw)
    requires Fits(d, jokes, facts)
    requires !Asked(st)
    requires Normalize(userText) in RiddleRequests
    ensures var o := Respond(st, jokes, facts, userText, d);
      o.reply == Riddles[d.riddle].q && o.meta == Meta(false, true) &&
      o.next == RiddleState(Some(Riddles[d.riddle]), true) && Asked(o.next) && o.next.current.value in Riddles
  {
    var i :| 0 <= i < |RiddleRequests| && RiddleRequests[i] == Normalize(userText);
    RequestsPassEarlierTests(i);
    assert RouteOf(st, userText) == AskRiddle;
  }

  /** The "riddles" the Riddles button sends asks a riddle when none is active. */
  lemma RiddlesAsksWhenIdle(st: RiddleState, jokes: seq<string>, facts: seq<string>, d: Draw)
    requires Fits(d, jokes, facts)
    requires !Asked(st)
    ensures var o := Respond(st, jokes, facts, "riddles", d);
      o.reply == Riddles[d.riddle].q && o.meta.riddleQuestion && Asked(o.next)
  {
    CleanWord("riddles");
    assert RiddleRequests[1] == "riddles";
    RiddleRequest(st, jokes, facts, "riddles", d);
  }

  /** A top-level "skip" always answers that no riddle is active and changes
      nothing; the "The answer is:" path is never taken. */
  lemma TopLevelSkip(st: RiddleState, jokes: seq<string>, facts: seq<string>, userText: string, d: Draw)
    requires Fits(d, jokes, facts)
    requires !Asked(st)
    requires Normalize(userText) == "skip"
    ensures var o := Respond(st, jokes, facts, userText, d);
      o.reply == NoRiddleReply && o.meta == NoMeta && o.next == st
  {
    assert 'h' !in "skip";
    forall j | 0 <= j < |HowAreProbes| ensures !Contains("skip", HowAreProbes[j]) {
      assert HowAreProbes[j][0] == 'h';
      NotContains("skip", HowAreProbes[j], 'h');
    }
    assert "skip" !in RiddleRequests;
    assert RouteOf(st, userText) == NothingToSkip;
  }

  /** No dispatch ever takes the "The answer is:" path. */
  lemma ShowAnswerUnreachable(st: RiddleState, userText: string)
    ensures RouteOf(st, userText) != ShowAnswer
  {
  }

  /** A message that reaches the keyword tests and contains "joke" gets one of
      the current jokes, even if it also contains "fact"; nothing changes. */
  lemma JokeReply(st: RiddleState, jokes: seq<string>, facts: seq<string>, userText: string, d: Draw)
    requires Fits(d, jokes, facts)
    requires !Asked(st)
    requires Normalize(userText) !in ConvoMap && !ContainsAny(Normalize(userText), HowAreProbes)
    requires Normalize(userText) !in RiddleRequests && Normalize(userText) != "skip"
    requires Contains(Normalize(userText), "joke")
    ensures var o := Respond(st, jokes, facts, userText, d);
      o.reply in jokes && o.reply == jokes[d.joke] && o.meta == NoMeta && o.next == st
  {
    assert RouteOf(st, userText) == Joke;
  }

  /** A message that reaches the keyword tests, has no "joke" and contains
      "fact" or "did you know" gets one of the current facts; nothing changes. */
  lemma FactReply(st: RiddleState, jokes: seq<string>, facts: seq<string>, userText: string, d: Draw)
    requires Fits(d, jokes, facts)
    requires !Asked(st)
    requires Normalize(userText) !in ConvoMap && !ContainsAny(Normalize(userText), HowAreProbes)
    requires Normalize(userText) !in RiddleRequests && Normalize(userText) != "skip"
    requires !Contains(Normalize(userText), "joke")
    requires Contains(Normalize(userText), "fact") || Contains(Normalize(userText), "did you know")
    ensures var o := Respond(st, jokes, facts, userText, d);
      o.reply in facts && o.reply == facts[d.fact] && o.meta == NoMeta && o.next == st
  {
    assert RouteOf(st, userText) == Fact;
  }

  /** Without an active riddle, the fallback is taken exactly when no earlier test
      matches, and its reply is the fixed help text. */
  lemma FallbackReplyIff(st: RiddleState, jokes: seq<string>, facts: seq<string>, userText: string, d: Draw)
    requires Fits(d, jokes, facts)
    requires !Asked(st)
    ensures var text := Normalize(userText);
      RouteOf(st, userText) == Fallback <==>
        text !in ConvoMap && !ContainsAny(text, HowAreProbes) && text !in RiddleRequests && text != "skip" &&
        !Contains(text, "joke") && !Contains(text, "fact") && !Contains(text, "did you know")
    ensures RouteOf(st, userText) == Fallback ==>
      Respond(st, jokes, facts, userText, d) == Outcome(FallbackReply, NoMeta, st)
  {
  }

  /** "tell me a joke" passes every test before the joke test, and passes that one. */
  lemma JokePhrasePassesEarlierTests()
    ensures var t := "tell me a joke";
      t !in ConvoMap && !ContainsAny(t, HowAreProbes) && t !in RiddleRequests && t != "skip" && Contains(t, "joke")
  {
    JokePhraseNoHowAre();
    JokePhraseHasJoke();
    var t := "tell me a joke";
    assert t[0] == 't' && "good afternoon"[0] == 'g';
    assert t !in ConvoMap;
  }

  lemma JokePhraseNoHowAre()
    ensures !ContainsAny("tell me a joke", HowAreProbes)
  {
    var t := "tell me a joke";
    forall j | 0 <= j < |HowAreProbes| ensures !Contains(t, HowAreProbes[j]) {
      if j == 0 {
        NotContains(t, "how are", 'r');
      } else if j == 1 {
        NotContains(t, "how's it going", 'g');
      } else {
        NotContains(t, "how are you doing", 'r');
      }
    }
  }

  lemma JokePhraseHasJoke()
    ensures Contains("tell me a joke", "joke")
  {
    var t := "tell me a joke";
    assert OccursAt(t, "joke", 10);
    ContainsIff(t, "joke");
  }

  /** "tell me a joke" gets one of the current jokes. */
  lemma TellMeAJoke(st: RiddleState, jokes: seq<string>, facts: seq<string>, userText: string, d: Draw)
    requires Fits(d, jokes, facts)
    requires !Asked(st)
    requires Normalize(userText) == "tell me a joke"
    ensures Respond(st, jokes, facts, userText, d).reply in jokes
  {
    JokePhrasePassesEarlierTests();
    JokeReply(st, jokes, facts, userText, d);
  }

  /** An empty or whitespace-only message with no active riddle falls through every
      keyword test to the fallback. */
  lemma BlankMessageFallsBack(st: RiddleState, jokes: seq<string>, facts: seq<string>, userText: string, d: Draw)
    requires Fits(d, jokes, facts)
    requires !Asked(st)
    requires forall k :: 0 <= k < |userText| ==> IsSpace(userText[k])
    ensures Respond(st, jokes, facts, userText, d) == Outcome(FallbackReply, NoMeta, st)
  {
    StripBlankIff(userText);
    assert Normalize(userText) == [];
    assert [] !in ConvoMap && [] !in RiddleRequests;
    assert !Contains([], "how are") && !Contains([], "how's it going") && !Contains([], "how are you doing");
    assert !ContainsAny([], HowAreProbes);
    assert !Contains([], "joke") && !Contains([], "fact") && !Contains([], "did you know");
    assert RouteOf(st, userText) == Fallback;
  }

  // ---------------------------------------------------------------------------
  // Content
  // ---------------------------------------------------------------------------

  /** `random.choice(items) if items else default[0]` of `get_random_joke` and `get_random_fact`. */
  function RandomItem(items: seq<string>, defaults: seq<string>, pick: nat): (r: string)
    requires items != [] ==> pick < |items|
    requires defaults != []
    ensures items != [] ==> r in items
    ensures items == [] ==> r == defaults[0]
  {
    if items != [] then items[pick] else defaults[0]
  }

  /** The list after `_add_as_joke` / `_add_as_fact`: the stripped text is appended
      unless it is empty. */
  function AddEntry(items: seq<string>, text: string): (r: seq<string>)
    ensures |r| == |items| + (if Strip(text) == [] then 0 else 1)
    ensures r[..|items|] == items
    ensures |r| > |items| ==> r[|items|] == Strip(text) && r[|items|] != [] && Strip(r[|items|]) == r[|items|]
  {
    var t := Strip(text);
    StripIdempotent(text);
    if t == [] then items else items + [t]
  }
}
