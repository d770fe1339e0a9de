/** An ASCII model of the few Python `str` operations the programs rely on:
    `strip()`, `lower()`, `upper()`, `split()` with no argument, `" ".join(...)`
    and the substring test `needle in hay`. Characters outside ASCII are left
    alone by the case mappings and are never whitespace. */
module PyStr {

  /** `str.isspace()` on ASCII: tab, line feed, vertical tab, form feed,
      carriage return, the separators 0x1C-0x1F and space. */
  predicate IsSpace(c: char) {
    (9 <= c as int <= 13) || (28 <= c as int <= 32)
  }

  predicate IsUpper(c: char) { 'A' <= c <= 'Z' }

  predicate IsLower(c: char) { 'a' <= c <= 'z' }

  function LowerChar(c: char): (d: char)
    ensures !IsUpper(d)
    ensures IsSpace(d) <==> IsSpace(c)
    ensures IsUpper(c) || d == c
  {
    if IsUpper(c) then (c as int + 32) as char else c
  }

  function UpperChar(c: char): (d: char)
    ensures !IsLower(d)
    ensures IsLower(c) ==> IsUpper(d)
    ensures IsLower(c) || d == c
  {
    if IsLower(c) then (c as int - 32) as char else c
  }

  /** No character of `s` is an upper-case letter. */
  predicate NoUpper(s: string) {
    forall k :: 0 <= k < |s| ==> !IsUpper(s[k])
  }

  /** `s.lower()` */
  function Lower(s: string): (r: string)
    ensures |r| == |s|
  {
    if s == [] then [] else [LowerChar(s[0])] + Lower(s[1..])
  }

  /** `lower()` maps every character on its own and leaves no upper-case letter. */
  lemma {:induction false} LowerAt(s: string)
    ensures forall k :: 0 <= k < |s| ==> Lower(s)[k] == LowerChar(s[k])
    ensures NoUpper(Lower(s))
  {
    if s != [] {
      LowerAt(s[1..]);
      assert Lower(s) == [LowerChar(s[0])] + Lower(s[1..]);
    }
  }

  /** A string without upper-case letters is its own lower-case form. */
  lemma LowerClean(s: string)
    requires NoUpper(s)
    ensures Lower(s) == s
  {
    LowerAt(s);
  }

  /** `s.upper()` */
  function Upper(s: string): (r: string)
    ensures |r| == |s|
  {
    if s == [] then [] else [UpperChar(s[0])] + Upper(s[1..])
  }

  /** `upper()` maps every character on its own. */
  lemma {:induction false} UpperAt(s: string)
    ensures forall k :: 0 <= k < |s| ==> Upper(s)[k] == UpperChar(s[k])
  {
    if s != [] {
      UpperAt(s[1..]);
      assert Upper(s) == [UpperChar(s[0])] + Upper(s[1..]);
    }
  }

  /** `s.lstrip()`: the suffix left after dropping the leading whitespace. */
  function Lstrip(s: string): (r: string)
    ensures |r| <= |s|
  {
    if s != [] && IsSpace(s[0]) then Lstrip(s[1..]) else s
  }

  /** `lstrip()` drops exactly the leading run of whitespace. */
  lemma {:induction false} LstripSpec(s: string)
    ensures Lstrip(s) == s[|s| - |Lstrip(s)|..]
    ensures forall k :: 0 <= k < |s| - |Lstrip(s)| ==> IsSpace(s[k])
    ensures Lstrip(s) == [] || !IsSpace(Lstrip(s)[0])
  {
    if s != [] && IsSpace(s[0]) {
      LstripSpec(s[1..]);
    }
  }

  /** `s.rstrip()`: the prefix left after dropping the trailing whitespace. */
  function Rstrip(s: string): (r: string)
    ensures |r| <= |s|
  {
    if s != [] && IsSpace(s[|s| - 1]) then Rstrip(s[..|s| - 1]) else s
  }

  /** `rstrip()` drops exactly the trailing run of whitespace. */
  lemma {:induction false} RstripSpec(s: string)
    ensures Rstrip(s) == s[..|Rstrip(s)|]
    ensures forall k :: |Rstrip(s)| <= k < |s| ==> IsSpace(s[k])
    ensures Rstrip(s) == [] || !IsSpace(Rstrip(s)[|Rstrip(s)| - 1])
  {
    if s != [] && IsSpace(s[|s| - 1]) {
      var t := s[..|s| - 1];
      RstripSpec(t);
      assert t[..|Rstrip(t)|] == s[..|Rstrip(t)|];
    }
  }

  /** `s.strip()` */
  function Strip(s: string): string {
    Rstrip(Lstrip(s))
  }

  /** The stripped string is the slice of `s` between its leading and trailing
      runs of whitespace, and has no whitespace at either end. */
  lemma StripSpec(s: string)
    ensures var i, r := |s| - |Lstrip(s)|, Strip(s);
      i + |r| <= |s| && r == s[i..i + |r|] &&
      (forall k :: 0 <= k < i ==> IsSpace(s[k])) &&
      (forall k :: i + |r| <= k < |s| ==> IsSpace(s[k]))
    ensures Strip(s) == [] || (!IsSpace(Strip(s)[0]) && !IsSpace(Strip(s)[|Strip(s)| - 1]))
  {
    var t := Lstrip(s);
    LstripSpec(s);
    RstripSpec(t);
    var r := Rstrip(t);
    var i := |s| - |t|;
    assert r == s[i..i + |r|];
    assert forall k :: i + |r| <= k < |s| ==> s[k] == t[k - i];
    if r != [] {
      assert r[0] == t[0];
    }
  }

  /** The stripped string is empty exactly when the original is all whitespace. */
  lemma StripBlankIff(s: string)
    ensures Strip(s) == [] <==> forall k :: 0 <= k < |s| ==> IsSpace(s[k])
  {
    StripSpec(s);
    LstripSpec(s);
  }

  /** Stripping a string that has no whitespace at either end changes nothing. */
  lemma StripTrimmed(s: string)
    requires s == [] || (!IsSpace(s[0]) && !IsSpace(s[|s| - 1]))
    ensures Strip(s) == s
  {
  }

  /** `strip()` is idempotent. */
  lemma StripIdempotent(s: string)
    ensures Strip(Strip(s)) == Strip(s)
  {
    StripSpec(s);
    StripTrimmed(Strip(s));
  }

  /** Every character of the stripped string occurs in the original. */
  lemma StripChars(s: string)
    ensures forall c :: c in Strip(s) ==> c in s
  {
    StripSpec(s);
    var r := Strip(s);
    var i := |s| - |Lstrip(s)|;
    forall c | c in r ensures c in s {
      var k :| 0 <= k < |r| && r[k] == c;
      assert s[i + k] == c;
    }
  }

  /** The longest whitespace-free prefix of `s`. */
  function TakeWord(s: string): (w: string)
    ensures |w| <= |s| && w == s[..|w|]
    ensures forall k :: 0 <= k < |w| ==> !IsSpace(w[k])
    ensures |w| == |s| || IsSpace(s[|w|])
  {
    if s == [] || IsSpace(s[0]) then [] else [s[0]] + TakeWord(s[1..])
  }

  /** `s.split()`: the maximal runs of non-whitespace characters, in order. */
  function Split(s: string): (ws: seq<string>)
    decreases |s|
  {
    var t := Lstrip(s);
    if t == [] then []
    else
      var w := TakeWord(t);
      [w] + Split(t[|w|..])
  }

  /** The words are non-empty, hold no whitespace, and hold only characters of `s`. */
  lemma {:induction false} SplitWords(s: string)
    ensures forall w :: w in Split(s) ==> w != [] && forall k :: 0 <= k < |w| ==> !IsSpace(w[k])
    ensures forall w, c :: w in Split(s) && c in w ==> c in s
    decreases |s|
  {
    var t := Lstrip(s);
    LstripSpec(s);
    if t != [] {
      var w := TakeWord(t);
      SplitWords(t[|w|..]);
      assert forall c :: c in t ==> c in s;
      assert forall c :: c in t[|w|..] ==> c in t;
      assert Split(s) == [w] + Split(t[|w|..]);
    }
  }

  /** `" ".join(ws)` */
  function JoinSpace(ws: seq<string>): string {
    if ws == [] then []
    else if |ws| == 1 then ws[0]
    else ws[0] + " " + JoinSpace(ws[1..])
  }

  /** A character of the joined string is a space or a character of some word. */
  lemma {:induction false} JoinSpaceChars(ws: seq<string>, c: char)
    requires c in JoinSpace(ws) && c != ' '
    ensures exists w :: w in ws && c in w
  {
    if |ws| == 1 {
      assert ws[0] in ws;
    } else if ws != [] {
      var rest := JoinSpace(ws[1..]);
      assert JoinSpace(ws) == ws[0] + " " + rest;
      if c in ws[0] {
        assert ws[0] in ws;
      } else {
        assert c in rest;
        JoinSpaceChars(ws[1..], c);
        var w :| w in ws[1..] && c in w;
        assert w in ws;
      }
    }
  }

  /** `" ".join(s.split())`: runs of whitespace become one space, and the ends are trimmed. */
  function Collapse(s: string): string {
    JoinSpace(Split(s))
  }

  /** The collapsed string holds only characters of `s` and plain spaces. */
  lemma CollapseChars(s: string)
    ensures forall c :: c in Collapse(s) ==> c in s || c == ' '
  {
    SplitWords(s);
    forall c | c in Collapse(s) && c != ' ' ensures c in s {
      JoinSpaceChars(Split(s), c);
    }
  }

  /** A non-empty string without whitespace is its own single word. */
  lemma CollapseWord(s: string)
    requires s != []
    requires forall k :: 0 <= k < |s| ==> !IsSpace(s[k])
    ensures Collapse(s) == s
  {
    assert Lstrip(s) == s;
    TakeWordAll(s);
    assert s[|s|..] == [];
    assert Split(s) == [s];
  }

  lemma {:induction false} TakeWordAll(s: string)
    requires forall k :: 0 <= k < |s| ==> !IsSpace(s[k])
    ensures TakeWord(s) == s
  {
    if s != [] {
      TakeWordAll(s[1..]);
    }
  }

  /** A whitespace-only string collapses to the empty string. */
  lemma CollapseBlank(s: string)
    requires forall k :: 0 <= k < |s| ==> IsSpace(s[k])
    ensures Collapse(s) == []
  {
    LstripSpec(s);
  }

  /** A word as `split()` yields it: non-empty and free of whitespace. */
  predicate IsWord(w: string) {
    w != [] && forall k :: 0 <= k < |w| ==> !IsSpace(w[k])
  }

  /** A whitespace-free word followed by a whitespace character is taken whole. */
  lemma {:induction false} TakeWordStops(w: string, tail: string)
    requires forall k :: 0 <= k < |w| ==> !IsSpace(w[k])
    requires tail != [] && IsSpace(tail[0])
    ensures TakeWord(w + tail) == w
  {
    if w != [] {
      assert (w + tail)[1..] == w[1..] + tail;
      TakeWordStops(w[1..], tail);
    }
  }

  /** `" ".join` followed by `split()` gives the words back, for words as
      `split()` yields them: the join keeps every word, in order. */
  lemma {:induction false} SplitJoinSpace(ws: seq<string>)
    requires forall w :: w in ws ==> IsWord(w)
    ensures Split(JoinSpace(ws)) == ws
  {
    if |ws| == 1 {
      assert ws[0] in ws;
      CollapseWord(ws[0]);
      assert Split(ws[0]) == [ws[0]];
    } else if ws != [] {
      var w := ws[0];
      assert w in ws;
      var rest := JoinSpace(ws[1..]);
      var s := w + " " + rest;
      assert JoinSpace(ws) == s;
      assert Lstrip(s) == s;
      TakeWordStops(w, " " + rest);
      assert s == w + (" " + rest);
      assert s[|w|..] == " " + rest;
      assert Lstrip(" " + rest) == Lstrip(rest);
      assert Split(" " + rest) == Split(rest);
      SplitJoinSpace(ws[1..]);
    }
  }

  /** `" ".join(s.split())` applied a second time changes nothing. */
  lemma CollapseIdempotent(s: string)
    ensures Collapse(Collapse(s)) == Collapse(s)
  {
    SplitWords(s);
    SplitJoinSpace(Split(s));
  }

  /** The words joined together with nothing between them. */
  function Concat(ws: seq<string>): string {
    if ws == [] then [] else ws[0] + Concat(ws[1..])
  }

  /** The reference for what `split()` keeps: the characters of `s` that are
      not whitespace, in order. */
  function Unspaced(s: string): string {
    if s == [] then []
    else (if IsSpace(s[0]) then [] else [s[0]]) + Unspaced(s[1..])
  }

  lemma {:induction false} UnspacedAppend(a: string, b: string)
    ensures Unspaced(a + b) == Unspaced(a) + Unspaced(b)
  {
    if a == [] {
      assert a + b == b;
    } else {
      assert (a + b)[0] == a[0] && (a + b)[1..] == a[1..] + b;
      UnspacedAppend(a[1..], b);
    }
  }

  lemma {:induction false} UnspacedBlank(s: string)
    requires forall k :: 0 <= k < |s| ==> IsSpace(s[k])
    ensures Unspaced(s) == []
  {
    if s != [] {
      UnspacedBlank(s[1..]);
    }
  }

  lemma {:induction false} UnspacedSolid(s: string)
    requires forall k :: 0 <= k < |s| ==> !IsSpace(s[k])
    ensures Unspaced(s) == s
  {
    if s != [] {
      UnspacedSolid(s[1..]);
    }
  }

  /** `split()` loses no character but whitespace and reorders nothing: its
      words, put back together, are exactly the non-whitespace characters of `s`. */
  lemma {:induction false} SplitContent(s: string)
    ensures Concat(Split(s)) == Unspaced(s)
    decreases |s|
  {
    var t := Lstrip(s);
    LstripSpec(s);
    var i := |s| - |t|;
    assert s == s[..i] + t;
    UnspacedAppend(s[..i], t);
    UnspacedBlank(s[..i]);
    if t != [] {
      var w := TakeWord(t);
      var u := t[|w|..];
      assert t == w + u;
      UnspacedAppend(w, u);
      UnspacedSolid(w);
      SplitContent(u);
      assert Split(s) == [w] + Split(u);
    }
  }

  /** Leading whitespace makes no difference to `split()`. */
  lemma {:induction false} SplitSkipsSpace(gap: string, r: string)
    requires forall k :: 0 <= k < |gap| ==> IsSpace(gap[k])
    ensures Split(gap + r) == Split(r)
  {
    LstripSkipsSpace(gap, r);
  }

  lemma {:induction false} LstripSkipsSpace(gap: string, r: string)
    requires forall k :: 0 <= k < |gap| ==> IsSpace(gap[k])
    ensures Lstrip(gap + r) == Lstrip(r)
  {
    if gap == [] {
      assert gap + r == r;
    } else {
      assert (gap + r)[0] == gap[0] && (gap + r)[1..] == gap[1..] + r;
      LstripSkipsSpace(gap[1..], r);
    }
  }

  /** Two words with any run of whitespace between them collapse to the two
      words and one space: `" ".join("pencil \t lead".split()) == "pencil lead"`. */
  lemma CollapseTwoWords(a: string, gap: string, b: string)
    requires IsWord(a) && IsWord(b)
    requires gap != [] && forall k :: 0 <= k < |gap| ==> IsSpace(gap[k])
    ensures Split(a + gap + b) == [a, b]
    ensures Collapse(a + gap + b) == a + " " + b
  {
    var s := a + gap + b;
    assert s == a + (gap + b);
    assert s[0] == a[0];
    assert Lstrip(s) == s;
    assert (gap + b)[0] == gap[0];
    TakeWordStops(a, gap + b);
    assert s[|a|..] == gap + b;
    SplitSkipsSpace(gap, b);
    CollapseWord(b);
    assert Split(s) == [a] + Split(b);
  }

  /** The multi-word riddle answer survives extra whitespace. */
  lemma CollapsePencilLead()
    ensures Collapse("pencil" + " \t " + "lead") == "pencil lead"
  {
    CollapseTwoWords("pencil", " \t ", "lead");
  }

  /** Collapsing a string without upper-case letters produces none. */
  lemma CollapseNoUpper(s: string)
    requires NoUpper(s)
    ensures NoUpper(Collapse(s))
  {
    var r := Collapse(s);
    CollapseChars(s);
    forall k | 0 <= k < |r| ensures !IsUpper(r[k]) {
      assert r[k] in r;
    }
  }

  /** `needle` is a prefix of `hay`. */
  predicate IsPrefix(needle: string, hay: string) {
    |needle| <= |hay| && hay[..|needle|] == needle
  }

  /** Python's `needle in hay` on strings; the empty string occurs in every string. */
  predicate Contains(hay: string, needle: string)
    decreases |hay|
  {
    IsPrefix(needle, hay) || (hay != [] && Contains(hay[1..], needle))
  }

  /** The reference definition of `needle in hay`: some slice of `hay` equals `needle`. */
  predicate OccursAt(hay: string, needle: string, i: int) {
    0 <= i && i + |needle| <= |hay| && hay[i..i + |needle|] == needle
  }

  /** `Contains` agrees with the reference definition, in both directions. */
  lemma {:induction false} ContainsIff(hay: string, needle: string)
    ensures Contains(hay, needle) <==> exists i :: OccursAt(hay, needle, i)
  {
    if exists i :: OccursAt(hay, needle, i) {
      var i :| OccursAt(hay, needle, i);
      if i == 0 {
        assert IsPrefix(needle, hay);
      } else {
        ContainsIff(hay[1..], needle);
        assert hay[1..][i - 1..i - 1 + |needle|] == hay[i..i + |needle|];
        assert OccursAt(hay[1..], needle, i - 1);
      }
    }
    if Contains(hay, needle) {
      if IsPrefix(needle, hay) {
        assert OccursAt(hay, needle, 0);
      } else {
        ContainsIff(hay[1..], needle);
        var i :| OccursAt(hay[1..], needle, i);
        assert hay[1..][i..i + |needle|] == hay[i + 1..i + 1 + |needle|];
        assert OccursAt(hay, needle, i + 1);
      }
    }
  }

  /** Every character of a contained string occurs in the containing one. */
  lemma ContainsChars(hay: string, needle: string)
    requires Contains(hay, needle)
    ensures forall c :: c in needle ==> c in hay
  {
    ContainsIff(hay, needle);
    var i :| OccursAt(hay, needle, i);
    forall c | c in needle ensures c in hay {
      var k :| 0 <= k < |needle| && needle[k] == c;
      assert hay[i + k] == needle[k];
    }
  }

  /** A character of `needle` missing from `hay` rules the containment out. */
  lemma NotContains(hay: string, needle: string, c: char)
    requires c in needle && c !in hay
    ensures !Contains(hay, needle)
  {
    if Contains(hay, needle) {
      ContainsChars(hay, needle);
    }
  }

  /** Every string contains the empty string and itself. */
  lemma ContainsTrivial(s: string)
    ensures Contains(s, [])
    ensures Contains(s, s)
  {
  }
}
