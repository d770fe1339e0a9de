/** The two file helpers of the chatbot: `safe_read_lines`, which loads a list of
    jokes or facts (writing the defaults when the file is missing or holds no
    text), and `append_line_to_file`, which adds one entry. A file is modelled by
    its whole content; `Broken` stands for a file that every open fails on. */
module ChatbotFiles {
  import opened PyStr

  datatype File = Missing | Broken | Present(content: string)

  /** What `safe_read_lines` returns, with the file as it leaves it. */
  datatype Loaded = Loaded(lines: seq<string>, file: File)

  /** `s.split("\n")`: the pieces between line breaks; there is always one more
      piece than there are breaks. */
  function SplitLines(s: string): (ls: seq<string>)
    ensures |ls| >= 1
    decreases |s|
  {
    if s == [] then [[]]
    else
      var rest := SplitLines(s[1..]);
      if s[0] == '\n' then [[]] + rest else [[s[0]] + rest[0]] + rest[1..]
  }

  /** `"\n".join(ls)` */
  function JoinLines(ls: seq<string>): string {
    if ls == [] then []
    else if |ls| == 1 then ls[0]
    else ls[0] + "\n" + JoinLines(ls[1..])
  }

  /** No piece of a split holds a line break. */
  lemma {:induction false} SplitNoNewline(s: string)
    ensures forall l :: l in SplitLines(s) ==> '\n' !in l
    decreases |s|
  {
    if s != [] {
      SplitNoNewline(s[1..]);
      var rest := SplitLines(s[1..]);
      if s[0] != '\n' {
        assert rest[0] in rest;
        forall l | l in rest[1..] ensures l in rest {
          var k :| 0 <= k < |rest[1..]| && rest[1..][k] == l;
          assert rest[k + 1] == l;
        }
      }
    }
  }

  /** A text without line breaks is a single piece. */
  lemma {:induction false} SplitSingle(s: string)
    requires '\n' !in s
    ensures SplitLines(s) == [s]
    decreases |s|
  {
    if s != [] {
      SplitSingle(s[1..]);
      assert [s[0]] + s[1..] == s;
    }
  }

  /** Splitting at one more line break splits the two sides independently. */
  lemma {:induction false} SplitAppend(a: string, b: string)
    ensures SplitLines(a + "\n" + b) == SplitLines(a) + SplitLines(b)
    decreases |a|
  {
    var s := a + "\n" + b;
    if a == [] {
      assert s[0] == '\n' && s[1..] == b;
      assert SplitLines(s) == [[]] + SplitLines(b);
    } else {
      assert s[0] == a[0] && s[1..] == a[1..] + "\n" + b;
      SplitAppend(a[1..], b);
      var rest := SplitLines(a[1..]);
      var restAll := SplitLines(s[1..]);
      if a[0] != '\n' {
        assert restAll[0] == rest[0];
        assert restAll[1..] == rest[1..] + SplitLines(b);
      }
    }
  }

  /** Splitting undoes joining, for lines without line breaks. */
  lemma {:induction false} SplitJoin(ls: seq<string>)
    requires ls != []
    requires forall l :: l in ls ==> '\n' !in l
    ensures SplitLines(JoinLines(ls)) == ls
  {
    if |ls| == 1 {
      SplitSingle(ls[0]);
    } else {
      assert forall l :: l in ls[1..] ==> l in ls;
      SplitJoin(ls[1..]);
      SplitAppend(ls[0], JoinLines(ls[1..]));
      SplitSingle(ls[0]);
      assert ls == [ls[0]] + ls[1..];
    }
  }

  /** `[line.strip() for line in lines if line.strip()]` */
  function KeptLines(ls: seq<string>): seq<string> {
    if ls == [] then []
    else
      var t := Strip(ls[0]);
      (if t == [] then [] else [t]) + KeptLines(ls[1..])
  }

  /** The kept lines of a whole text, as `f.readlines()` followed by the filter
      gives them. */
  function TextLines(content: string): seq<string> {
    KeptLines(SplitLines(content))
  }

  /** A line that the filter keeps as it is: non-empty and already stripped. */
  predicate Clean(l: string) {
    l != [] && Strip(l) == l
  }

  /** Filtering distributes over concatenation. */
  lemma {:induction false} KeptAppend(a: seq<string>, b: seq<string>)
    ensures KeptLines(a + b) == KeptLines(a) + KeptLines(b)
  {
    if a != [] {
      KeptAppend(a[1..], b);
      assert (a + b)[0] == a[0];
      assert (a + b)[1..] == a[1..] + b;
      var t := Strip(a[0]);
      var head := if t == [] then [] else [t];
      assert KeptLines(a + b) == head + KeptLines(a[1..] + b);
      assert KeptLines(a) == head + KeptLines(a[1..]);
    } else {
      assert a + b == b;
    }
  }

  /** Every kept line is clean. */
  lemma {:induction false} KeptClean(ls: seq<string>)
    ensures forall l :: l in KeptLines(ls) ==> Clean(l)
  {
    if ls != [] {
      KeptClean(ls[1..]);
      StripIdempotent(ls[0]);
    }
  }

  /** A character that no input line holds is in no kept line. */
  lemma {:induction false} KeptAvoids(ls: seq<string>, c: char)
    requires forall m :: m in ls ==> c !in m
    ensures forall l :: l in KeptLines(ls) ==> c !in l
  {
    if ls != [] {
      assert ls[0] in ls;
      assert forall m :: m in ls[1..] ==> m in ls;
      KeptAvoids(ls[1..], c);
      StripChars(ls[0]);
    }
  }

  /** Lines that are all clean are kept unchanged. */
  lemma {:induction false} KeptOfClean(ls: seq<string>)
    requires forall l :: l in ls ==> Clean(l)
    ensures KeptLines(ls) == ls
  {
    if ls != [] {
      assert ls[0] in ls;
      assert forall l :: l in ls[1..] ==> l in ls;
      KeptOfClean(ls[1..]);
      assert ls == [ls[0]] + ls[1..];
    }
  }

  /** The lines read back from a file are clean and hold no line break. */
  lemma TextLinesClean(content: string)
    ensures forall l :: l in TextLines(content) ==> Clean(l) && '\n' !in l
  {
    SplitNoNewline(content);
    KeptClean(SplitLines(content));
    KeptAvoids(SplitLines(content), '\n');
  }

  /** Lists that survive a write and a read unchanged: clean entries without line breaks. */
  predicate Storable(ls: seq<string>) {
    forall l :: l in ls ==> Clean(l) && '\n' !in l
  }

  /** Reading back what `"\n".join` wrote gives the same list, for storable lists. */
  lemma StoredRoundTrip(ls: seq<string>)
    requires Storable(ls)
    ensures TextLines(JoinLines(ls)) == ls
  {
    if ls == [] {
      assert SplitLines([]) == [[]];
      assert Strip([]) == [];
    } else {
      SplitJoin(ls);
      KeptOfClean(ls);
    }
  }

  /** `safe_read_lines(filepath, default_list)` */
  function ReadLines(f: File, defaults: seq<string>): (r: Loaded)
    ensures r.lines == defaults || (f.Present? && r.lines == TextLines(f.content) && r.file == f)
    ensures r.lines == defaults ==> r.file == f || r.file == Present(JoinLines(defaults))
    ensures defaults != [] ==> r.lines != []
  {
    match f
    case Missing => Loaded(defaults, Present(JoinLines(defaults)))
    case Broken => Loaded(defaults, Broken)
    case Present(content) =>
      var lines := TextLines(content);
      if lines == [] then Loaded(defaults, Present(JoinLines(defaults))) else Loaded(lines, f)
  }

  /** A file that holds some text yields its own lines, which are clean; a
      missing file, or one without text, is replaced by the defaults. */
  lemma ReadLinesCases(f: File, defaults: seq<string>)
    ensures f.Present? && TextLines(f.content) != [] ==>
      ReadLines(f, defaults) == Loaded(TextLines(f.content), f) && Storable(ReadLines(f, defaults).lines)
    ensures f.Missing? || (f.Present? && TextLines(f.content) == []) ==>
      ReadLines(f, defaults) == Loaded(defaults, Present(JoinLines(defaults)))
    ensures f.Broken? ==> ReadLines(f, defaults) == Loaded(defaults, Broken)
  {
    if f.Present? {
      TextLinesClean(f.content);
    }
  }

  /** Loading twice gives what loading once gave, and leaves the file as the
      first load left it, when the defaults are storable and not empty. */
  lemma ReadLinesIdempotent(f: File, defaults: seq<string>)
    requires defaults != [] && Storable(defaults)
    ensures var r := ReadLines(f, defaults); ReadLines(r.file, defaults) == r
  {
    StoredRoundTrip(defaults);
  }

  /** `append_line_to_file(filepath, text)`: opening for append creates a missing file. */
  function AppendLine(f: File, text: string): (g: File)
    ensures f.Broken? <==> g.Broken?
  {
    match f
    case Missing => Present("\n" + Strip(text))
    case Broken => Broken
    case Present(content) => Present(content + "\n" + Strip(text))
  }

  /** After an entry is appended, reading the file gives the old lines followed by
      the stripped entry, when the stripped entry is not empty and has no line break. */
  lemma AppendThenRead(content: string, text: string)
    requires Strip(text) != [] && '\n' !in Strip(text)
    ensures TextLines(AppendLine(Present(content), text).content) == TextLines(content) + [Strip(text)]
    ensures TextLines(AppendLine(Missing, text).content) == [Strip(text)]
  {
    var t := Strip(text);
    StripIdempotent(text);
    SplitAppend(content, t);
    SplitSingle(t);
    KeptAppend(SplitLines(content), [t]);
    SplitAppend([], t);
    assert SplitLines([]) == [[]];
    assert Strip([]) == [];
    KeptAppend([[]], [t]);
    assert [] + "\n" + t == "\n" + t;
  }
}
