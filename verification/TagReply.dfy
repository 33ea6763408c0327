/**
 Splitting a model reply into a description and its tags. Strings are ASCII, where lower-casing keeps positions.
 */
module TagReply {
  import opened Text

  const MARKER := "tags:"

  const INJECTION_PATTERNS: seq<string> := [
    "ignore all previous", "ignore previous", "disregard previous", "disregard all", "forget all previous",
    "new instructions:", "system prompt:", "system:", "[inst]", "[system]", "</s>", "[/inst]",
    "<|im_start|>", "<|system|>"]

  const PLACEHOLDER_START := "[screen content contained"
  const PLACEHOLDER_MIDDLE := " text that could not be"
  const PLACEHOLDER_END := " safely stored]"
  const PLACEHOLDER := PLACEHOLDER_START + PLACEHOLDER_MIDDLE + PLACEHOLDER_END

  function Lower(c: char): char { if 'A' <= c <= 'Z' then (c as int + 32) as char else c }

  function ToLower(s: string): (r: string)
    ensures |r| == |s| && forall i :: 0 <= i < |s| ==> r[i] == Lower(s[i])
  {
    seq(|s|, i requires 0 <= i < |s| => Lower(s[i]))
  }

  predicate OccursAt(s: string, pat: string, i: nat) { i + |pat| <= |s| && s[i..i + |pat|] == pat }

  ghost predicate Occurs(s: string, pat: string) { exists i: nat :: OccursAt(s, pat, i) }

  /** strings.LastIndex, searching down from position i. */
  function LastIndexFrom(s: string, pat: string, i: nat): (r: int)
    ensures -1 <= r <= i
    ensures r >= 0 ==> OccursAt(s, pat, r)
    ensures forall j: nat :: r < j <= i ==> !OccursAt(s, pat, j)
  {
    if OccursAt(s, pat, i) then i else if i == 0 then -1 else LastIndexFrom(s, pat, i - 1)
  }

  function LastIndex(s: string, pat: string): (r: int)
    ensures r >= 0 ==> OccursAt(s, pat, r)
    ensures forall j: nat :: j > r ==> !OccursAt(s, pat, j)
  {
    LastIndexFrom(s, pat, |s|)
  }

  predicate Contains(s: string, pat: string) { LastIndex(s, pat) >= 0 }

  function Split(s: string, sep: char): seq<string>
    decreases |s|
  {
    var i := IndexOf(s, sep);
    if i == |s| then [s] else [s[..i]] + Split(s[i + 1..], sep)
  }

  /** The trimmed, non-empty pieces. */
  function Collect(pieces: seq<string>): seq<string> {
    if pieces == [] then []
    else
      var t := TrimSpace(pieces[0]);
      (if t != "" then [t] else []) + Collect(pieces[1..])
  }

  predicate IsBracket(c: char) { c == '[' || c == ']' }

  function Sanitize(desc: string): string {
    if exists i :: 0 <= i < |INJECTION_PATTERNS| && Contains(ToLower(desc), INJECTION_PATTERNS[i])
    then PLACEHOLDER else desc
  }

  function ParseReply(response: string): (string, seq<string>) {
    var idx := LastIndex(ToLower(response), MARKER);
    if idx < 0 then (Sanitize(TrimSpace(response)), [])
    else
      var tagLine := TrimSpace(response[idx + |MARKER|..]);
      (Sanitize(TrimSpace(response[..idx])), Collect(Split(Trim(tagLine, IsBracket), ',')))
  }

  // ---- The code's loops ----

  method SanitizeDescription(desc: string) returns (r: string)
    ensures r == Sanitize(desc)
  {
    hide Contains, ToLower;
    var lower := ToLower(desc);
    for i := 0 to |INJECTION_PATTERNS|
      invariant forall j :: 0 <= j < i ==> !Contains(lower, INJECTION_PATTERNS[j])
    {
      if Contains(lower, INJECTION_PATTERNS[i]) {
        return PLACEHOLDER;
      }
    }
    return desc;
  }

  lemma ParseReplyIs(response: string, idx: int)
    requires idx == LastIndex(ToLower(response), MARKER)
    ensures idx < 0 ==> ParseReply(response) == (Sanitize(TrimSpace(response)), [])
    ensures idx >= 0 ==>
              && idx + |MARKER| <= |response|
              && ParseReply(response)
                 == (Sanitize(TrimSpace(response[..idx])),
                     Collect(Split(Trim(TrimSpace(response[idx + |MARKER|..]), IsBracket), ',')))
  {
    hide Sanitize, TrimSpace, Trim, LastIndex, Split, ToLower, Collect;
  }

  method ParseDescriptionAndTags(response: string) returns (description: string, tags: seq<string>)
    ensures (description, tags) == ParseReply(response)
  {
    hide Sanitize, TrimSpace, Trim, LastIndex, Split, ToLower, ParseReply;
    tags := [];
    var idx := LastIndex(ToLower(response), MARKER);
    ParseReplyIs(response, idx);
    if idx < 0 {
      description := SanitizeDescription(TrimSpace(response));
      return;
    }
    description := SanitizeDescription(TrimSpace(response[..idx]));
    var tagLine := TrimSpace(response[idx + |MARKER|..]);
    tagLine := Trim(tagLine, IsBracket);
    var pieces := Split(tagLine, ',');
    for i := 0 to |pieces|
      invariant tags + Collect(pieces[i..]) == Collect(pieces)
    {
      assert pieces[i..][0] == pieces[i] && pieces[i..][1..] == pieces[i + 1..];
      var t := TrimSpace(pieces[i]);
      if t != "" {
        tags := tags + [t];
      }
    }
    assert pieces[|pieces|..] == [] && tags + [] == tags;
  }

  // ---- Descriptions are clean ----

  lemma MissingCharacter(s: string, pat: string, k: nat)
    requires k < |pat| && pat[k] !in s
    ensures !Contains(s, pat)
  {
    forall i: nat
      ensures !OccursAt(s, pat, i)
    {
      if i + |pat| <= |s| {
        assert s[i..i + |pat|][k] == s[i + k];
        assert s[i + k] in s;
      }
    }
  }

  predicate Foreign(c: char) { c == 'g' || c == ':' || c == 'm' || c == '/' || c == '<' }

  lemma ForeignToStart(c: char)
    requires Foreign(c)
    ensures c !in PLACEHOLDER_START
  {
  }

  lemma ForeignToMiddle(c: char)
    requires Foreign(c)
    ensures c !in PLACEHOLDER_MIDDLE
  {
  }

  lemma ForeignToEnd(c: char)
    requires Foreign(c)
    ensures c !in PLACEHOLDER_END
  {
  }

  lemma ForeignToPlaceholder(c: char)
    requires Foreign(c)
    ensures c !in PLACEHOLDER
  {
    hide PLACEHOLDER_START, PLACEHOLDER_MIDDLE, PLACEHOLDER_END;
    ForeignToStart(c);
    ForeignToMiddle(c);
    ForeignToEnd(c);
  }

  lemma PlaceholderIsLower()
    ensures ToLower(PLACEHOLDER) == PLACEHOLDER
  {
    assert ToLower(PLACEHOLDER_START) == PLACEHOLDER_START;
    assert ToLower(PLACEHOLDER_MIDDLE) == PLACEHOLDER_MIDDLE;
    assert ToLower(PLACEHOLDER_END) == PLACEHOLDER_END;
    hide PLACEHOLDER_START, PLACEHOLDER_MIDDLE, PLACEHOLDER_END, ToLower;
    LowerConcat(PLACEHOLDER_START + PLACEHOLDER_MIDDLE, PLACEHOLDER_END);
    LowerConcat(PLACEHOLDER_START, PLACEHOLDER_MIDDLE);
  }

  /** Where each pattern has a character the placeholder lacks; only "[inst]" has none. */
  function ForeignPosition(i: nat): nat {
    if i < 2 then 1
    else if i < 4 then 5
    else if i == 4 then 3
    else if i == 5 then 16
    else if i == 6 then 13
    else if i == 7 then 6
    else if i == 9 then 6
    else if i == 11 then 1
    else 0
  }

  lemma PatternHasForeign(i: nat)
    requires i < |INJECTION_PATTERNS| && i != 8
    ensures var pat := INJECTION_PATTERNS[i];
            ForeignPosition(i) < |pat| && Foreign(pat[ForeignPosition(i)])
  {
  }

  lemma PlaceholderClean(i: nat)
    requires i < |INJECTION_PATTERNS|
    ensures !Contains(ToLower(PLACEHOLDER), INJECTION_PATTERNS[i])
  {
    PlaceholderIsLower();
    if i == 8 {
      OnlyOneOpening();
    } else {
      PatternHasForeign(i);
      hide PLACEHOLDER, ToLower, Contains, ForeignPosition, Foreign;
      ForeignToPlaceholder(INJECTION_PATTERNS[i][ForeignPosition(i)]);
      MissingCharacter(PLACEHOLDER, INJECTION_PATTERNS[i], ForeignPosition(i));
    }
  }

  lemma OpeningsOfParts()
    ensures PLACEHOLDER_START[1] == 's' && forall i :: 0 < i < |PLACEHOLDER_START| ==> PLACEHOLDER_START[i] != '['
    ensures '[' !in PLACEHOLDER_MIDDLE && '[' !in PLACEHOLDER_END
    ensures |PLACEHOLDER_START| > 1
  {
  }

  lemma OnlyOneOpening()
    ensures !Contains(PLACEHOLDER, "[inst]")
  {
    OpeningsOfParts();
    hide PLACEHOLDER_START, PLACEHOLDER_MIDDLE, PLACEHOLDER_END;
    var p, pat := PLACEHOLDER, "[inst]";
    assert p[1] == 's';
    forall i: nat
      ensures !OccursAt(p, pat, i)
    {
      if i + |pat| <= |p| {
        var found := p[i..i + |pat|];
        assert found[0] == p[i] && found[1] == p[i + 1];
        if i > 0 {
          assert p[i] in p[1..];
          assert p[1..] == PLACEHOLDER_START[1..] + PLACEHOLDER_MIDDLE + PLACEHOLDER_END;
          assert '[' !in PLACEHOLDER_START[1..];
        }
      }
    }
  }

  /** The pattern, in any letter case. */
  predicate SameLetter(c: char, lower: char) {
    if 'A' <= c <= 'Z' then lower as int == c as int + 32 else c == lower
  }

  predicate SpelledAt(s: string, pat: string, i: nat) {
    i + |pat| <= |s| && forall k: nat :: k < |pat| ==> SameLetter(s[i + k], pat[k])
  }

  ghost predicate Spelled(s: string, pat: string) { exists i: nat :: SpelledAt(s, pat, i) }

  lemma SpelledAtIs(s: string, pat: string, i: nat)
    ensures SpelledAt(s, pat, i) <==> OccursAt(ToLower(s), pat, i)
  {
    var t := ToLower(s);
    if i + |pat| <= |s| {
      var part := t[i..i + |pat|];
      forall k: nat | k < |pat|
        ensures SameLetter(s[i + k], pat[k]) <==> part[k] == pat[k]
      {
        assert part[k] == t[i + k] == Lower(s[i + k]);
      }
    }
  }

  lemma SpelledIs(s: string, pat: string)
    ensures Spelled(s, pat) <==> Contains(ToLower(s), pat)
  {
    hide SpelledAt, OccursAt, ToLower;
    forall i: nat
      ensures SpelledAt(s, pat, i) <==> OccursAt(ToLower(s), pat, i)
    {
      SpelledAtIs(s, pat, i);
    }
  }

  /** The patterns themselves. */
  lemma PatternsAre(pat: string)
    ensures pat in INJECTION_PATTERNS
       <==> pat in {"ignore all previous", "ignore previous", "disregard previous", "disregard all", "forget all previous",
                    "new instructions:", "system prompt:", "system:", "[inst]", "[system]", "</s>", "[/inst]",
                    "<|im_start|>", "<|system|>"}
  {
  }

  /** Whatever the reply, the description that comes back contains no injection pattern in any letter case. */
  lemma DescriptionIsClean(response: string, pat: string)
    requires pat in INJECTION_PATTERNS
    ensures !Spelled(ParseReply(response).0, pat)
  {
    hide Contains, ToLower, LastIndex, TrimSpace, Split, Collect, Trim, Spelled, INJECTION_PATTERNS, PLACEHOLDER;
    var i :| 0 <= i < |INJECTION_PATTERNS| && INJECTION_PATTERNS[i] == pat;
    PlaceholderClean(i);
    SpelledIs(ParseReply(response).0, pat);
  }

  // ---- Round trip ----

  function Join(tags: seq<string>): string {
    if tags == [] then "" else if |tags| == 1 then tags[0] else tags[0] + ", " + Join(tags[1..])
  }

  /** The form the model is asked for. */
  function PrintReply(desc: string, tags: seq<string>): string { desc + "\nTAGS: [" + Join(tags) + "]" }

  predicate Trimmed(s: string) { s == "" || (!IsSpace(s[0]) && !IsSpace(s[|s| - 1])) }

  ghost predicate GoodTag(t: string) {
    t != "" && Trimmed(t) && ',' !in t && !Occurs(ToLower(t), MARKER)
  }

  /** The first tag does not begin and the last does not end with a bracket. */
  predicate NoOuterBracket(tags: seq<string>) {
    tags != [] ==>
      var first, last := tags[0], tags[|tags| - 1];
      first != "" && last != "" && !IsBracket(first[0]) && !IsBracket(last[|last| - 1])
  }

  ghost predicate GoodTags(tags: seq<string>) {
    (forall i :: 0 <= i < |tags| ==> GoodTag(tags[i])) && NoOuterBracket(tags)
  }

  /** Droppable characters around a kept middle go away. */
  lemma TrimAround(a: string, m: string, b: string, drop: char -> bool)
    requires forall i :: 0 <= i < |a| ==> drop(a[i])
    requires forall i :: 0 <= i < |b| ==> drop(b[i])
    requires m == "" || (!drop(m[0]) && !drop(m[|m| - 1]))
    ensures Trim(a + m + b, drop) == m
  {
    assert a + m + b == a + (m + b);
    TrimLeftOff(a, m + b, drop);
    if m == "" {
      assert m + b == b;
      AllDropped(b, drop);
    } else {
      KeptFront(m + b, drop);
      hide TrimLeft;
      TrimRightOff(m, b, drop);
      KeptBack(m, drop);
    }
  }

  lemma AllDropped(b: string, drop: char -> bool)
    requires forall i :: 0 <= i < |b| ==> drop(b[i])
    ensures Trim(b, drop) == ""
  {
    TrimNone(drop);
    hide TrimLeft, TrimRight;
    assert b + "" == b;
    TrimLeftOff(b, "", drop);
  }

  lemma TrimNone(drop: char -> bool)
    ensures TrimLeft("", drop) == "" && TrimRight("", drop) == ""
  {
  }

  lemma KeptFront(s: string, drop: char -> bool)
    requires s != "" && !drop(s[0])
    ensures TrimLeft(s, drop) == s
  {
  }

  lemma KeptBack(s: string, drop: char -> bool)
    requires s != "" && !drop(s[|s| - 1])
    ensures TrimRight(s, drop) == s
  {
  }

  lemma {:induction false} TrimLeftOff(a: string, s: string, drop: char -> bool)
    requires forall i :: 0 <= i < |a| ==> drop(a[i])
    ensures TrimLeft(a + s, drop) == TrimLeft(s, drop)
    decreases |a|
  {
    if a == "" {
      assert a + s == s;
    } else {
      assert (a + s)[1..] == a[1..] + s;
      TrimLeftOff(a[1..], s, drop);
    }
  }

  lemma {:induction false} TrimRightOff(s: string, b: string, drop: char -> bool)
    requires forall i :: 0 <= i < |b| ==> drop(b[i])
    ensures TrimRight(s + b, drop) == TrimRight(s, drop)
    decreases |b|
  {
    if b == "" {
      assert s + b == s;
    } else {
      var n := |b| - 1;
      assert (s + b)[..|s + b| - 1] == s + b[..n];
      TrimRightOff(s, b[..n], drop);
    }
  }

  /** A character foreign to the pattern separates: no occurrence reaches across it. */
  lemma NoOccurrenceAcross(a: string, c: char, b: string, pat: string)
    requires c !in pat && pat != "" && !Occurs(a, pat) && !Occurs(b, pat)
    ensures !Occurs(a + [c] + b, pat)
  {
    var s := a + [c] + b;
    forall i: nat
      ensures !OccursAt(s, pat, i)
    {
      if i + |pat| <= |s| {
        if i + |pat| <= |a| {
          assert s[i..i + |pat|] == a[i..i + |pat|];
          assert !OccursAt(a, pat, i);
        } else if i > |a| {
          var j := i - |a| - 1;
          assert s[i..i + |pat|] == b[j..j + |pat|];
          assert !OccursAt(b, pat, j);
        } else {
          assert s[i..i + |pat|][|a| - i] == c;
        }
      }
    }
  }

  lemma LowerConcat(a: string, b: string)
    ensures ToLower(a + b) == ToLower(a) + ToLower(b)
  {
  }

  /** Two strings without the marker, joined by a character it does not have. */
  lemma LowerNoMarker(a: string, c: char, b: string)
    requires Lower(c) !in MARKER && !Occurs(ToLower(a), MARKER) && !Occurs(ToLower(b), MARKER)
    ensures !Occurs(ToLower(a + [c] + b), MARKER)
  {
    LowerConcat(a + [c], b);
    LowerConcat(a, [c]);
    assert ToLower([c]) == [Lower(c)];
    NoOccurrenceAcross(ToLower(a), Lower(c), ToLower(b), MARKER);
  }

  lemma {:induction false} JoinNoMarker(tags: seq<string>)
    requires forall i :: 0 <= i < |tags| ==> GoodTag(tags[i])
    ensures !Occurs(ToLower(Join(tags)), MARKER)
  {
    hide Occurs, ToLower;
    LowerNothing();
    if |tags| == 1 {
      assert GoodTag(tags[0]);
    } else if |tags| >= 2 {
      JoinNoMarker(tags[1..]);
      var rest := Join(tags[1..]);
      LowerNoMarker("", ' ', rest);
      assert "" + [' '] + rest == " " + rest;
      assert GoodTag(tags[0]);
      LowerNoMarker(tags[0], ',', " " + rest);
      assert tags[0] + [','] + (" " + rest) == Join(tags);
    }
  }

  lemma LowerNothing()
    ensures ToLower("") == "" && !Occurs(ToLower(""), MARKER)
  {
  }

  lemma {:induction false} JoinEnds(tags: seq<string>)
    requires tags != [] && forall i :: 0 <= i < |tags| ==> tags[i] != ""
    ensures Join(tags) != "" && Join(tags)[0] == tags[0][0]
    ensures Join(tags)[|Join(tags)| - 1] == tags[|tags| - 1][|tags[|tags| - 1]| - 1]
  {
    if |tags| >= 2 {
      JoinEnds(tags[1..]);
    }
  }

  /** Splitting a joined list at the commas and trimming gives the list back. */
  lemma {:induction false} CollectJoined(lead: string, tags: seq<string>)
    requires lead == "" || lead == " "
    requires tags != [] && forall i :: 0 <= i < |tags| ==> GoodTag(tags[i])
    ensures Collect(Split(lead + Join(tags), ',')) == tags
    decreases |tags|
  {
    hide Occurs, ToLower, TrimSpace, Split, Collect, IsSpace;
    var t, s := tags[0], lead + Join(tags);
    var piece := lead + t;
    TagTrims(lead, t);
    assert ',' !in piece;
    if |tags| == 1 {
      assert s == piece;
      SplitLast(piece);
      CollectOne(piece, []);
      assert [piece] + [] == [piece];
      CollectEmpty();
      assert tags == [t];
    } else {
      var rest := " " + Join(tags[1..]);
      assert s == piece + [','] + rest;
      SplitFirst(piece, rest);
      CollectJoined(" ", tags[1..]);
      CollectOne(piece, Split(rest, ','));
    }
  }

  lemma CollectEmpty()
    ensures Collect([]) == []
  {
  }

  lemma TagTrims(lead: string, t: string)
    requires (lead == "" || lead == " ") && t != "" && Trimmed(t)
    ensures TrimSpace(lead + t) == t
  {
    hide Trim;
    TrimAround(lead, t, "", IsSpace);
    assert lead + t + "" == lead + t;
  }

  lemma SplitLast(piece: string)
    requires ',' !in piece
    ensures Split(piece, ',') == [piece]
  {
    assert forall i :: 0 <= i < |piece| ==> piece[i] in piece;
    IndexOfIs(piece, ',', |piece|);
  }

  lemma SplitFirst(piece: string, rest: string)
    requires ',' !in piece
    ensures Split(piece + [','] + rest, ',') == [piece] + Split(rest, ',')
  {
    var s := piece + [','] + rest;
    assert forall i :: 0 <= i < |piece| ==> s[i] == piece[i] && piece[i] in piece;
    hide IndexOf;
    IndexOfIs(s, ',', |piece|);
    assert s[..|piece|] == piece && s[|piece| + 1..] == rest;
  }

  lemma CollectOne(piece: string, rest: seq<string>)
    requires TrimSpace(piece) != ""
    ensures Collect([piece] + rest) == [TrimSpace(piece)] + Collect(rest)
  {
    hide TrimSpace;
    assert ([piece] + rest)[1..] == rest;
  }

  lemma CollectNothing()
    ensures Collect(Split("", ',')) == []
  {
    assert Split("", ',') == [""];
    assert TrimSpace("") == "";
    assert [""][1..] == [];
  }

  /** The printed marker is the last one, even if the description has its own. */
  lemma MarkerFound(desc: string, tags: seq<string>)
    requires forall i :: 0 <= i < |tags| ==> GoodTag(tags[i])
    ensures LastIndex(ToLower(PrintReply(desc, tags)), MARKER) == |desc| + 1
  {
    hide Join, LastIndex, Occurs, ToLower;
    var tail := " [" + Join(tags) + "]";
    assert PrintReply(desc, tags) == desc + "\n" + "TAGS:" + tail;
    TailNoMarker(tags);
    LowerConcat(desc + "\n" + "TAGS:", tail);
    LowerConcat(desc + "\n", "TAGS:");
    LowerMarker();
    LastMarker(ToLower(desc + "\n"), ToLower(tail));
  }

  lemma LowerMarker()
    ensures ToLower("TAGS:") == MARKER
  {
  }

  /** A marker followed by text without one is the last marker: no occurrence starts inside it either. */
  lemma LastMarker(before: string, tail: string)
    requires !Occurs(tail, MARKER)
    ensures LastIndex(before + MARKER + tail, MARKER) == |before|
  {
    var s, at := before + MARKER + tail, |before|;
    assert s[at..at + |MARKER|] == MARKER;
    assert OccursAt(s, MARKER, at);
    forall j: nat | j > at
      ensures !OccursAt(s, MARKER, j)
    {
      if j + |MARKER| <= |s| {
        if j < at + |MARKER| {
          var found := s[j..j + |MARKER|];
          assert found[0] == s[j];
          assert s[j] == MARKER[j - at];
        } else {
          var i := j - at - |MARKER|;
          assert s[j..j + |MARKER|] == tail[i..i + |MARKER|];
          assert !OccursAt(tail, MARKER, i);
        }
      }
    }
  }

  lemma TailNoMarker(tags: seq<string>)
    requires forall i :: 0 <= i < |tags| ==> GoodTag(tags[i])
    ensures !Occurs(ToLower(" [" + Join(tags) + "]"), MARKER)
  {
    JoinNoMarker(tags);
    BracketedNoMarker(Join(tags));
  }

  lemma BracketedNoMarker(j: string)
    requires !Occurs(ToLower(j), MARKER)
    ensures !Occurs(ToLower(" [" + j + "]"), MARKER)
  {
    hide Occurs, ToLower;
    LowerNothing();
    var bracketed := "[" + j;
    assert [] + ['['] + j == bracketed;
    LowerNoMarker("", '[', j);
    var spaced := " [" + j;
    assert [] + [' '] + bracketed == spaced;
    LowerNoMarker("", ' ', bracketed);
    assert spaced + [']'] + [] == " [" + j + "]";
    LowerNoMarker(spaced, ']', "");
  }

  /**
   Printing a trimmed description and clean tags in the prompted form and parsing the reply gives both back, even when the
   description contains the marker itself; the description comes back sanitized.
   */
  lemma ReplyRoundTrip(desc: string, tags: seq<string>)
    requires Trimmed(desc) && GoodTags(tags)
    ensures ParseReply(PrintReply(desc, tags)) == (Sanitize(desc), tags)
  {
    hide Sanitize, LastIndex, ToLower, Split, Collect, Trim, TrimSpace, Join, Occurs, IsSpace;
    var r := PrintReply(desc, tags);
    var j := Join(tags);
    MarkerFound(desc, tags);
    assert r[..|desc| + 1] == desc + "\n";
    assert r[|desc| + 1 + |MARKER|..] == " [" + j + "]";
    TrimmedDescription(desc);
    TrimmedTagLine(j);
    BareTagLine(tags);
    CollectTags(tags);
  }

  /** A printed description survives unchanged exactly when no injection pattern occurs in it, in any letter case. */
  lemma DescriptionSurvives(desc: string, tags: seq<string>)
    requires Trimmed(desc) && GoodTags(tags)
    ensures ParseReply(PrintReply(desc, tags)).0 == desc
       <==> forall pat :: pat in INJECTION_PATTERNS ==> !Spelled(desc, pat)
  {
    hide ParseReply, PrintReply, GoodTags, ToLower, Contains, Spelled, PLACEHOLDER, INJECTION_PATTERNS;
    ReplyRoundTrip(desc, tags);
    forall i | 0 <= i < |INJECTION_PATTERNS|
      ensures Spelled(desc, INJECTION_PATTERNS[i]) <==> Contains(ToLower(desc), INJECTION_PATTERNS[i])
      ensures !Contains(ToLower(PLACEHOLDER), INJECTION_PATTERNS[i])
    {
      SpelledIs(desc, INJECTION_PATTERNS[i]);
      PlaceholderClean(i);
    }
  }

  lemma TrimmedDescription(desc: string)
    requires Trimmed(desc)
    ensures TrimSpace(desc + "\n") == desc
  {
    hide Trim;
    TrimAround("", desc, "\n", IsSpace);
    assert "" + desc + "\n" == desc + "\n";
  }

  lemma TrimmedTagLine(j: string)
    ensures TrimSpace(" [" + j + "]") == "[" + j + "]"
  {
    hide Trim;
    TrimAround(" ", "[" + j + "]", "", IsSpace);
    assert " " + ("[" + j + "]") + "" == " [" + j + "]";
  }

  lemma BareTagLine(tags: seq<string>)
    requires GoodTags(tags)
    ensures Trim("[" + Join(tags) + "]", IsBracket) == Join(tags)
  {
    hide Trim, Occurs, ToLower;
    if tags != [] {
      JoinEnds(tags);
    }
    TrimAround("[", Join(tags), "]", IsBracket);
  }

  lemma CollectTags(tags: seq<string>)
    requires GoodTags(tags)
    ensures Collect(Split(Join(tags), ',')) == tags
  {
    hide Collect, Split, Occurs, ToLower;
    if tags == [] {
      CollectNothing();
    } else {
      CollectJoined("", tags);
      assert "" + Join(tags) == Join(tags);
    }
  }

  // ---- Outer brackets are the only clean tags that do not survive ----

  predicate IsBlank(c: char) { IsSpace(c) || c == ',' }

  /** The characters that are neither white space nor commas. */
  function Ink(s: string): string
    decreases |s|
  {
    if s == "" then "" else Ink(s[..|s| - 1]) + (if IsBlank(s[|s| - 1]) then "" else [s[|s| - 1]])
  }

  function TotalInk(pieces: seq<string>): string { if pieces == [] then "" else Ink(pieces[0]) + TotalInk(pieces[1..]) }

  lemma {:induction false} InkConcat(a: string, b: string)
    ensures Ink(a + b) == Ink(a) + Ink(b)
    decreases |b|
  {
    hide IsBlank;
    if b == "" {
      assert a + b == a;
    } else {
      var n := |b| - 1;
      assert (a + b)[..|a + b| - 1] == a + b[..n];
      InkConcat(a, b[..n]);
    }
  }

  lemma {:induction false} InkAllBlank(s: string)
    requires forall i :: 0 <= i < |s| ==> IsBlank(s[i])
    ensures Ink(s) == ""
    decreases |s|
  {
    hide IsBlank;
    if s != "" {
      InkAllBlank(s[..|s| - 1]);
    }
  }

  lemma {:induction false} InkAllBrackets(s: string)
    requires forall i :: 0 <= i < |s| ==> IsBracket(s[i])
    ensures Ink(s) == s
    decreases |s|
  {
    if s != "" {
      assert IsBracket(s[|s| - 1]);
      InkAllBrackets(s[..|s| - 1]);
    }
  }

  /** Trimming cuts a string into what goes in front, what stays and what goes behind. */
  lemma TrimParts(s: string, drop: char -> bool) returns (front: string, back: string)
    ensures s == front + Trim(s, drop) + back
    ensures forall i :: 0 <= i < |front| ==> drop(front[i])
    ensures forall i :: 0 <= i < |back| ==> drop(back[i])
  {
    hide TrimLeft, TrimRight;
    var left := TrimLeft(s, drop);
    var m := TrimRight(left, drop);
    front, back := s[..|s| - |left|], left[|m|..];
  }

  lemma InkTrimSpace(s: string)
    ensures Ink(TrimSpace(s)) == Ink(s)
  {
    hide Ink, Trim;
    var front, back := TrimParts(s, IsSpace);
    InkConcat(front + TrimSpace(s), back);
    InkConcat(front, TrimSpace(s));
    InkAllBlank(front);
    InkAllBlank(back);
  }

  lemma {:induction false} InkSplit(s: string)
    ensures TotalInk(Split(s, ',')) == Ink(s)
    decreases |s|
  {
    hide Ink, IsBlank, IndexOf;
    var i := IndexOf(s, ',');
    if i == |s| {
      assert Split(s, ',') == [s];
      OnePiece(s);
    } else {
      var rest := s[i + 1..];
      InkSplit(rest);
      assert s == s[..i] + [','] + rest;
      InkConcat(s[..i] + [','], rest);
      InkConcat(s[..i], [',']);
      CommaHasNoInk();
      var pieces := Split(s, ',');
      assert pieces[0] == s[..i] && pieces[1..] == Split(rest, ',');
    }
  }

  lemma OnePiece(s: string)
    ensures TotalInk([s]) == Ink(s)
  {
    hide Ink;
    assert [s][1..] == [];
    assert TotalInk([]) == "";
  }

  lemma CommaHasNoInk()
    ensures Ink([',']) == ""
  {
    assert [','][..0] == "";
    assert Ink("") == "";
  }

  lemma {:induction false} InkCollect(pieces: seq<string>)
    ensures TotalInk(Collect(pieces)) == TotalInk(pieces)
  {
    hide Ink, TrimSpace;
    if pieces != [] {
      InkCollect(pieces[1..]);
      InkTrimSpace(pieces[0]);
      var t, rest := TrimSpace(pieces[0]), Collect(pieces[1..]);
      if t == "" {
        NothingHasNoInk();
        assert [] + rest == rest;
      } else {
        assert ([t] + rest)[1..] == rest;
      }
    }
  }

  lemma NothingHasNoInk()
    ensures Ink("") == ""
  {
  }

  lemma {:induction false} InkJoin(tags: seq<string>)
    ensures Ink(Join(tags)) == TotalInk(tags)
  {
    hide Ink;
    NothingHasNoInk();
    if |tags| == 1 {
      OnePiece(tags[0]);
      assert tags == [tags[0]];
    } else if |tags| >= 2 {
      InkJoin(tags[1..]);
      InkConcat(tags[0] + ", ", Join(tags[1..]));
      InkConcat(tags[0], ", ");
      SeparatorHasNoInk();
    }
  }

  lemma SeparatorHasNoInk()
    ensures Ink(", ") == ""
  {
    InkAllBlank(", ");
  }

  lemma InkTrimBrackets(s: string)
    ensures |Ink(Trim(s, IsBracket))| + (|s| - |Trim(s, IsBracket)|) == |Ink(s)|
  {
    hide Ink, Trim;
    var front, back := TrimParts(s, IsBracket);
    InkConcat(front + Trim(s, IsBracket), back);
    InkConcat(front, Trim(s, IsBracket));
    InkAllBrackets(front);
    InkAllBrackets(back);
  }

  lemma TrimEnds(s: string, drop: char -> bool)
    ensures Trim(s, drop) != "" ==> !drop(Trim(s, drop)[0]) && !drop(Trim(s, drop)[|Trim(s, drop)| - 1])
  {
  }

  /** With a bracket of its own at either end, the bracketed list loses a third character. */
  lemma OuterBracketsGoTogether(j: string)
    requires j != "" && (IsBracket(j[0]) || IsBracket(j[|j| - 1]))
    ensures |Trim("[" + j + "]", IsBracket)| < |j|
  {
    hide Trim;
    var s := "[" + j + "]";
    var m := Trim(s, IsBracket);
    var front, back := TrimParts(s, IsBracket);
    TrimEnds(s, IsBracket);
    if m != "" {
      assert s[|front|] == m[0] && s[|front| + |m| - 1] == m[|m| - 1];
      assert IsBracket(s[0]) && IsBracket(s[|s| - 1]);
      assert s[1] == j[0] && s[|s| - 2] == j[|j| - 1];
    }
  }

  /** The tags a printed reply parses to, whatever brackets they carry. */
  lemma ParsedTags(desc: string, tags: seq<string>)
    requires forall i :: 0 <= i < |tags| ==> GoodTag(tags[i])
    ensures ParseReply(PrintReply(desc, tags)).1 == Collect(Split(Trim("[" + Join(tags) + "]", IsBracket), ','))
  {
    hide ParseReply, LastIndex, ToLower, Split, Collect, Trim, TrimSpace, Join, GoodTag;
    var r, j := PrintReply(desc, tags), Join(tags);
    MarkerFound(desc, tags);
    TagsAfterMarker(r, |desc| + 1);
    assert r[|desc| + 1 + |MARKER|..] == " [" + j + "]";
    TrimmedTagLine(j);
  }

  lemma TagsAfterMarker(r: string, idx: nat)
    requires LastIndex(ToLower(r), MARKER) == idx
    ensures idx + |MARKER| <= |r|
    ensures ParseReply(r).1 == Collect(Split(Trim(TrimSpace(r[idx + |MARKER|..]), IsBracket), ','))
  {
    hide Sanitize, Split, Collect, Trim, TrimSpace;
  }

  /**
   Trimmed, comma-free, marker-free tags come back exactly when the first does not begin and the last does not end with a
   bracket of its own: the code strips all outer brackets, not just the printed pair.
   */
  lemma TagsSurvive(desc: string, tags: seq<string>)
    requires forall i :: 0 <= i < |tags| ==> GoodTag(tags[i])
    ensures ParseReply(PrintReply(desc, tags)).1 == tags <==> NoOuterBracket(tags)
  {
    ParsedTags(desc, tags);
    hide ParseReply, PrintReply, Collect, Split, Trim, Join, Ink, Occurs, ToLower, IsBracket;
    var j := Join(tags);
    var s := "[" + j + "]";
    var m := Trim(s, IsBracket);
    if NoOuterBracket(tags) {
      BareTagLine(tags);
      CollectTags(tags);
    } else {
      JoinEnds(tags);
      OuterBracketsGoTogether(j);
      InkTrimBrackets(s);
      InkBracketed(j);
      InkSplit(m);
      InkCollect(Split(m, ','));
      InkJoin(tags);
      assert |TotalInk(Collect(Split(m, ',')))| < |TotalInk(tags)|;
    }
  }

  lemma InkBracketed(j: string)
    ensures Ink("[" + j + "]") == "[" + Ink(j) + "]"
  {
    hide Ink;
    InkConcat("[" + j, "]");
    InkConcat("[", j);
    InkAllBrackets("[");
    InkAllBrackets("]");
  }

  // ---- What any reply parses to ----

  predicate AllSpace(s: string) { forall i :: 0 <= i < |s| ==> IsSpace(s[i]) }

  lemma TrimSpaceParts(s: string) returns (front: string, back: string)
    ensures s == front + TrimSpace(s) + back && AllSpace(front) && AllSpace(back) && Trimmed(TrimSpace(s))
  {
    hide Trim, IsSpace;
    front, back := TrimParts(s, IsSpace);
    TrimEnds(s, IsSpace);
  }

  lemma SanitizeIs(d: string)
    ensures Sanitize(d) == if exists pat :: pat in INJECTION_PATTERNS && Spelled(d, pat)
                           then "[screen content contained text that could not be safely stored]" else d
  {
    PlaceholderStarts();
    PlaceholderEnds();
    assert PLACEHOLDER == "[screen content contained text that could not be safely stored]" by {
      hide PLACEHOLDER_START, PLACEHOLDER_MIDDLE, PLACEHOLDER_END;
    }
    hide Contains, ToLower, Spelled, PLACEHOLDER, INJECTION_PATTERNS;
    forall i | 0 <= i < |INJECTION_PATTERNS|
      ensures Contains(ToLower(d), INJECTION_PATTERNS[i]) <==> Spelled(d, INJECTION_PATTERNS[i])
    {
      SpelledIs(d, INJECTION_PATTERNS[i]);
    }
  }

  lemma PlaceholderStarts()
    ensures PLACEHOLDER_START + PLACEHOLDER_MIDDLE == "[screen content contained text that could not be"
  {
  }

  lemma PlaceholderEnds()
    ensures "[screen content contained text that could not be" + PLACEHOLDER_END
         == "[screen content contained text that could not be safely stored]"
  {
  }

  lemma MarkerIs(response: string)
    ensures var idx := LastIndex(ToLower(response), MARKER);
            if idx < 0 then !Spelled(response, "tags:")
            else SpelledAt(response, "tags:", idx) && forall j: nat :: j > idx ==> !SpelledAt(response, "tags:", j)
  {
    hide SpelledAt, OccursAt, ToLower;
    forall i: nat
      ensures SpelledAt(response, "tags:", i) <==> OccursAt(ToLower(response), MARKER, i)
    {
      SpelledAtIs(response, MARKER, i);
    }
  }

  /**
   The description of any reply: what comes before the last marker, in whatever case, or all of it if there is none, without
   the white space around it; unless an injection pattern is spelled in it, in whatever case.
   */
  lemma DescriptionIs(response: string) returns (front: string, d: string, back: string)
    ensures AllSpace(front) && AllSpace(back) && Trimmed(d) && front + d + back <= response
    ensures var at := |front + d + back|;
            && (forall j: nat :: j > at ==> !SpelledAt(response, "tags:", j))
            && if at == |response| then !Spelled(response, "tags:") else SpelledAt(response, "tags:", at)
    ensures ParseReply(response).0
         == if exists pat :: pat in INJECTION_PATTERNS && Spelled(d, pat)
            then "[screen content contained text that could not be safely stored]" else d
  {
    hide Sanitize, TrimSpace, Trim, LastIndex, Split, ToLower, Collect, ParseReply, Spelled, Trimmed, AllSpace, IsSpace;
    hide INJECTION_PATTERNS;
    var idx := LastIndex(ToLower(response), MARKER);
    ParseReplyIs(response, idx);
    MarkerIs(response);
    var text := if idx < 0 then response else response[..idx];
    d := TrimSpace(text);
    front, back := TrimSpaceParts(text);
    SanitizeIs(d);
  }

  lemma {:induction false} CollectedAre(pieces: seq<string>, t: string)
    requires t in Collect(pieces)
    ensures t != "" && Trimmed(t) && exists i :: 0 <= i < |pieces| && t == TrimSpace(pieces[i])
  {
    hide TrimSpace, Trimmed;
    if t == TrimSpace(pieces[0]) && t != "" {
      var _, _ := TrimSpaceParts(pieces[0]);
    } else {
      CollectedAre(pieces[1..], t);
    }
  }

  lemma {:induction false} SplitPieces(s: string, i: nat)
    requires i < |Split(s, ',')|
    ensures ',' !in Split(s, ',')[i]
    decreases |s|
  {
    var k := IndexOf(s, ',');
    if k < |s| && i > 0 {
      SplitPieces(s[k + 1..], i - 1);
    }
  }

  predicate AllBrackets(s: string) { forall i :: 0 <= i < |s| ==> s[i] == '[' || s[i] == ']' }

  lemma BracketParts(s: string) returns (front: string, back: string)
    ensures s == front + Trim(s, IsBracket) + back && AllBrackets(front) && AllBrackets(back)
  {
    hide Trim;
    front, back := TrimParts(s, IsBracket);
  }

  /**
   The tags of any reply that has a marker: the tag line is what follows it without white space and then brackets around it;
   no tag is empty, has white space at an end or a comma; and together they have every character of the line that is neither
   white space nor a comma, in order.
   */
  lemma TagsAre(response: string, at: nat) returns (front: string, line: string, back: string)
    requires SpelledAt(response, "tags:", at) && forall j: nat :: j > at ==> !SpelledAt(response, "tags:", j)
    ensures at + 5 <= |response|
    ensures exists a, b, c, d: string :: front == a + b && back == c + d
              && AllSpace(a) && AllBrackets(b) && AllBrackets(c) && AllSpace(d)
    ensures response[at + 5..] == front + line + back
    ensures line != "" ==> !IsBracket(line[0]) && !IsBracket(line[|line| - 1])
    ensures var tags := ParseReply(response).1;
            && (forall t :: t in tags ==> t != "" && Trimmed(t) && ',' !in t)
            && TotalInk(tags) == Ink(line)
  {
    hide Sanitize, TrimSpace, Trim, LastIndex, Split, ToLower, Collect, ParseReply, Trimmed, AllSpace, IsSpace, Ink, TotalInk;
    hide AllBrackets;
    var idx := LastIndex(ToLower(response), MARKER);
    MarkerIs(response);
    assert idx == at;
    ParseReplyIs(response, idx);
    var rest := response[at + 5..];
    var tagLine := TrimSpace(rest);
    line := Trim(tagLine, IsBracket);
    var a, d := TrimSpaceParts(rest);
    var b, c := BracketParts(tagLine);
    TrimEnds(tagLine, IsBracket);
    front, back := a + b, c + d;
    assert rest == a + (b + line + c) + d;
    var pieces := Split(line, ',');
    InkSplit(line);
    InkCollect(pieces);
    forall t | t in Collect(pieces)
      ensures t != "" && Trimmed(t) && ',' !in t
    {
      CollectedAre(pieces, t);
      var i :| 0 <= i < |pieces| && t == TrimSpace(pieces[i]);
      SplitPieces(line, i);
      var p, q := TrimSpaceParts(pieces[i]);
    }
  }
}
