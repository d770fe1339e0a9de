/** `ChatbotCore` as an object: the joke and fact lists and the two riddle
    fields live in the object and are updated in place, and `get_reply` is an
    early-return chain proved to agree with the dispatch `Respond`. The GUI
    handlers that drive it (`_on_send`, `_process_user_text`, the Riddles button
    and the two add handlers) are methods too, with the widgets, threads and
    speech left out. */
module ChatbotSession {
  import opened PyStr
  import opened Chatbot
  import opened ChatbotFiles

  class ChatbotCore {
    var jokes: seq<string>
    var facts: seq<string>
    var currentRiddle: Option<Riddle>
    var riddleActive: bool

    /** The two riddle fields as one value. */
    function State(): RiddleState
      reads this
    {
      RiddleState(currentRiddle, riddleActive)
    }

    /** Both lists are non-empty, so `random.choice` never fails on them, and the
        riddle fields hold one of the reachable states. */
    predicate Valid()
      reads this
    {
      jokes != [] && facts != [] && Reachable(State())
    }

    /** `__init__`: both lists are loaded through `safe_read_lines`; the riddle
        fields start as no riddle with `riddle_active` set. */
    constructor(jokesFile: File, factsFile: File)
      ensures jokes == ReadLines(jokesFile, DefaultJokes).lines
      ensures facts == ReadLines(factsFile, DefaultFacts).lines
      ensures State() == Initial
      ensures Valid()
    {
      jokes := ReadLines(jokesFile, DefaultJokes).lines;
      facts := ReadLines(factsFile, DefaultFacts).lines;
      currentRiddle := None;
      riddleActive := true;
    }

    /** `get_reply`: the reply and flags are those of `Respond`, the riddle fields
        move to its new state, and the lists are only read. */
    method GetReply(userText: string, d: Draw) returns (reply: string, meta: Meta)
      requires Valid() && Fits(d, jokes, facts)
      modifies this
      ensures jokes == old(jokes) && facts == old(facts)
      ensures var o := Respond(old(State()), jokes, facts, userText, d);
        reply == o.reply && meta == o.meta && State() == o.next
      ensures Valid()
    {
      ghost var route := RouteOf(State(), userText);
      var text := Normalize(userText);
      if riddleActive && currentRiddle.Some? {
        var expected := Expected(currentRiddle.value);
        var userAns := Collapse(text);
        if expected == userAns || Contains(userAns, expected) || Contains(expected, userAns) {
          assert route == RiddleCorrect;
          return CongratsReply, Meta(true, false);
        } else if userAns == "skip" || userAns == "SKIP" || userAns == "Skip" {
          assert route == RiddleSkipped(expected);
          return SkippedPrefix + expected, Meta(true, false);
        } else {
          assert route == RiddleRetry;
          return RetryReply, NoMeta;
        }
      }
      if text in ConvoMap {
        assert route == SmallTalk(text);
        return ConvoMap[text], Meta(text == "bye" || text == "goodbye", false);
      }
      if ContainsAny(text, HowAreProbes) {
        assert route == HowAre;
        return ConvoMap["how are you"], NoMeta;
      }
      if text in RiddleRequests {
        assert route == AskRiddle;
        var r := Riddles[d.riddle];
        currentRiddle := Some(r);
        riddleActive := true;
        return r.q, Meta(false, true);
      }
      if text == "skip" {
        if riddleActive && currentRiddle.Some? {
          // The riddle branch above has already returned in this case.
          assert false;
        }
        assert route == NothingToSkip;
        return NoRiddleReply, NoMeta;
      }
      if Contains(text, "joke") {
        assert route == Joke;
        return jokes[d.joke], NoMeta;
      }
      if Contains(text, "fact") || Contains(text, "did you know") {
        assert route == Fact;
        return facts[d.fact], NoMeta;
      }
      assert route == Fallback;
      return FallbackReply, NoMeta;
    }

    /** `stop_riddle` */
    method StopRiddle()
      requires Valid()
      modifies this
      ensures State() == Idle
      ensures jokes == old(jokes) && facts == old(facts)
      ensures Valid()
    {
      currentRiddle := None;
      riddleActive := false;
    }

    /** `_process_user_text`: one dispatch, then `stop_riddle()` when the flags ask for it. */
    method ProcessUserText(userText: string, d: Draw) returns (reply: string, meta: Meta)
      requires Valid() && Fits(d, jokes, facts)
      modifies this
      ensures jokes == old(jokes) && facts == old(facts)
      ensures var o := Turn(old(State()), jokes, facts, userText, d);
        reply == o.reply && meta == o.meta && State() == o.next
      ensures Valid()
    {
      reply, meta := GetReply(userText, d);
      if meta.clearRiddle {
        StopRiddle();
      }
    }

    /** `_on_send`: the entry text is stripped, and an empty text is ignored. */
    method Send(entryText: string, d: Draw) returns (reply: Option<string>)
      requires Valid() && Fits(d, jokes, facts)
      modifies this
      ensures jokes == old(jokes) && facts == old(facts)
      ensures Strip(entryText) == [] ==> reply == None && State() == old(State())
      ensures Strip(entryText) != [] ==>
        var o := Turn(old(State()), jokes, facts, entryText, d);
        reply == Some(o.reply) && State() == o.next
      ensures Valid()
    {
      var userText := Strip(entryText);
      if userText == [] {
        return None;
      }
      NormalizeStripped(entryText);
      TurnSeesNormalForm(State(), jokes, facts, userText, entryText, d);
      var r, _ := ProcessUserText(userText, d);
      reply := Some(r);
    }

    /** `_on_riddles_clicked`: dispatches "riddles" but, unlike a typed message,
        never calls `stop_riddle()`. */
    method RiddlesClicked(d: Draw) returns (reply: string, meta: Meta)
      requires Valid() && Fits(d, jokes, facts)
      modifies this
      ensures jokes == old(jokes) && facts == old(facts)
      ensures var o := Respond(old(State()), jokes, facts, "riddles", d);
        reply == o.reply && meta == o.meta && State() == o.next
      ensures !Asked(old(State())) ==> reply == Riddles[d.riddle].q && meta.riddleQuestion && Asked(State())
      ensures Asked(old(State())) ==> reply == RetryReply && State() == old(State())
      ensures Valid()
    {
      ghost var st := State();
      if Asked(st) {
        var i :| 0 <= i < |Riddles| && Riddles[i] == st.current.value;
        CleanWord("riddles");
        RiddlesMissesAll();
        ActiveRiddleSwallowsCommands(i, jokes, facts, "riddles", d);
        MissWhileActive(i, jokes, facts, "riddles", d);
      } else {
        RiddlesAsksWhenIdle(st, jokes, facts, d);
      }
      reply, meta := GetReply("riddles", d);
    }

    /** `get_random_joke` */
    method GetRandomJoke(pick: nat) returns (joke: string)
      requires jokes != [] ==> pick < |jokes|
      ensures joke == RandomItem(jokes, DefaultJokes, pick)
      ensures jokes != [] ==> joke in jokes
    {
      joke := RandomItem(jokes, DefaultJokes, pick);
    }

    /** `get_random_fact` */
    method GetRandomFact(pick: nat) returns (fact: string)
      requires facts != [] ==> pick < |facts|
      ensures fact == RandomItem(facts, DefaultFacts, pick)
      ensures facts != [] ==> fact in facts
    {
      fact := RandomItem(facts, DefaultFacts, pick);
    }

    /** The list part of `_add_as_joke`: the stripped entry is appended unless it is empty. */
    method AddJoke(entryText: string) returns (added: bool)
      requires Valid()
      modifies this
      ensures added <==> Strip(entryText) != []
      ensures jokes == AddEntry(old(jokes), entryText)
      ensures facts == old(facts) && State() == old(State())
      ensures Valid()
    {
      var text := Strip(entryText);
      if text == [] {
        return false;
      }
      jokes := jokes + [text];
      added := true;
    }

    /** The list part of `_add_as_fact`. */
    method AddFact(entryText: string) returns (added: bool)
      requires Valid()
      modifies this
      ensures added <==> Strip(entryText) != []
      ensures facts == AddEntry(old(facts), entryText)
      ensures jokes == old(jokes) && State() == old(State())
      ensures Valid()
    {
      var text := Strip(entryText);
      if text == [] {
        return false;
      }
      facts := facts + [text];
      added := true;
    }
  }

  /** `_on_send` passes the stripped text on; stripping first changes neither the
      normal form nor what the dispatch does. */
  lemma NormalizeStripped(s: string)
    ensures Normalize(Strip(s)) == Normalize(s)
  {
    StripIdempotent(s);
  }

  // ---------------------------------------------------------------------------
  // The lists in memory and the files on disk
  // ---------------------------------------------------------------------------

  /** The file yields exactly the list held in memory on the next start. */
  predicate Synced(f: File, items: seq<string>) {
    f.Present? && TextLines(f.content) == items
  }

  /** `'\n' !in s`, stated index by index: on long literals the verifier settles
      this form much faster than sequence membership. */
  predicate NoLineBreak(s: string) {
    forall i :: 0 <= i < |s| ==> s[i] != '\n'
  }

  /** A text made of three parts without line breaks, and without whitespace at
      its two ends, is storable. */
  lemma StorableText(a: string, b: string, c: string)
    requires a != [] && c != [] && !IsSpace(a[0]) && !IsSpace(c[|c| - 1])
    requires NoLineBreak(a) && NoLineBreak(b) && NoLineBreak(c)
    ensures Clean(a + b + c) && '\n' !in a + b + c
  {
    var s := a + b + c;
    assert s[0] == a[0] && s[|s| - 1] == c[|c| - 1];
    StripTrimmed(s);
    forall i | 0 <= i < |s| ensures s[i] != '\n' {
      if i < |a| {
        assert s[i] == a[i];
      } else if i < |a| + |b| {
        assert s[i] == b[i - |a|];
      } else {
        assert s[i] == c[i - |a| - |b|];
      }
    }
  }

  /** The built-in jokes survive a write and a read unchanged. */
  lemma JokesStorable()
    ensures Storable(DefaultJokes)
  {
    StorableText("Why don't scientists ", "trust atoms? Because ", "they make up everything!");
    StorableText("Why did the computer ", "go to the doctor? ", "Because it had a virus!");
    StorableText("What do you call ", "fake spaghetti? ", "An impasta!");
  }

  /** The built-in facts survive a write and a read unchanged. */
  lemma FactsStorable()
    ensures Storable(DefaultFacts)
  {
    StorableText("Honey never spoils. ", "Archaeologists found edible ", "honey in ancient Egyptian tombs.");
    StorableText("Bananas are berries, ", "but strawberries ", "aren't.");
    StorableText("Octopuses ", "have three ", "hearts.");
  }

  /** After loading, the list the core holds is what its file yields, unless
      the file cannot be opened at all. */
  lemma LoadSynced(f: File)
    requires !f.Broken?
    ensures Synced(ReadLines(f, DefaultJokes).file, ReadLines(f, DefaultJokes).lines)
    ensures Synced(ReadLines(f, DefaultFacts).file, ReadLines(f, DefaultFacts).lines)
  {
    JokesStorable();
    FactsStorable();
    StoredRoundTrip(DefaultJokes);
    StoredRoundTrip(DefaultFacts);
  }

  /** An add handler appends the same stripped entry to the file and to the list,
      so a synchronised pair stays synchronised. */
  lemma AddSynced(f: File, items: seq<string>, entryText: string)
    requires Synced(f, items)
    requires '\n' !in entryText
    ensures Strip(entryText) != [] ==> Synced(AppendLine(f, entryText), AddEntry(items, entryText))
  {
    if Strip(entryText) != [] {
      StripChars(entryText);
      AppendThenRead(f.content, entryText);
    }
  }
}
