/**
 Logs that end in the middle of a line. An append that fails part-way leaves a fragment, and whatever is appended next is
 glued to it; a log is whole lines and then such a fragment.
 */
module Fragments {
  import opened Wrappers
  import opened Text
  import opened Wal

  // ---- Whole lines and the rest ----

  /** What follows the last line break. */
  function Fragment(text: string): (f: string)
    ensures |f| <= |text|
  {
    if Complete(text) then "" else Fragment(text[..|text| - 1]) + [text[|text| - 1]]
  }

  function WholeLines(text: string): string { text[..|text| - |Fragment(text)|] }

  lemma {:induction false} SplitIs(text: string)
    ensures Complete(WholeLines(text)) && text == WholeLines(text) + Fragment(text)
    decreases |text|
  {
    if !Complete(text) {
      var init := text[..|text| - 1];
      SplitIs(init);
      assert WholeLines(text) == WholeLines(init);
      assert text == init + [text[|text| - 1]];
    }
  }

  lemma ParseSplit(text: string)
    ensures Parse(text) == Parse(WholeLines(text)) + Parse(Fragment(text))
  {
    hide Parse, Complete, Fragment, WholeLines;
    SplitIs(text);
    ParseConcat(WholeLines(text), Fragment(text));
  }

  lemma FragmentMore(text: string, c: char)
    requires c != '\n'
    ensures Fragment(text + [c]) == Fragment(text) + [c]
  {
    var t := text + [c];
    assert |t| - 1 == |text| && t[|t| - 1] == c;
    assert t[..|t| - 1] == text;
    LastOfFragment(t);
  }

  lemma LastOfFragment(text: string)
    requires !Complete(text)
    ensures Fragment(text) == Fragment(text[..|text| - 1]) + [text[|text| - 1]]
  {
    hide Complete;
  }

  /** What is appended without a line break goes to the fragment. */
  lemma FragmentGrows(text: string, s: string)
    requires forall i :: 0 <= i < |s| ==> s[i] != '\n'
    ensures Fragment(text + s) == Fragment(text) + s && WholeLines(text + s) == WholeLines(text)
  {
    hide Fragment, Complete, WholeLines;
    FragmentTakesAll(text, s);
    SplitIs(text);
    SplitIs(text + s);
    SameHead(text + s, WholeLines(text + s), text, WholeLines(text), Fragment(text), s);
  }

  lemma SameHead(ts: string, a: string, t: string, b: string, f: string, s: string)
    requires ts == t + s && ts == a + (f + s) && t == b + f
    ensures a == b
  {
    assert |a| == |b|;
    assert a == ts[..|a|] && b == t[..|b|];
  }

  lemma {:induction false} FragmentTakesAll(text: string, s: string)
    requires forall i :: 0 <= i < |s| ==> s[i] != '\n'
    ensures Fragment(text + s) == Fragment(text) + s
    decreases |s|
  {
    hide Fragment, Complete;
    if s == "" {
      assert text + s == text && Fragment(text) + s == Fragment(text);
    } else {
      var init, last := s[..|s| - 1], s[|s| - 1];
      FragmentTakesAll(text, init);
      FragmentMore(text + init, last);
      AppendLast(text, s);
      AppendLast(Fragment(text), s);
    }
  }

  lemma AppendLast(a: string, s: string)
    requires s != ""
    ensures (a + s[..|s| - 1]) + [s[|s| - 1]] == a + s
  {
  }

  lemma CompleteHasNoFragment(text: string)
    requires Complete(text)
    ensures Fragment(text) == "" && WholeLines(text) == text
  {
    hide Complete;
    assert text[..|text|] == text;
  }

  lemma EndsInBreak(text: string, line: string)
    requires line != "" && line[|line| - 1] == '\n'
    ensures Complete(text + line)
  {
    assert (text + line)[|text + line| - 1] == '\n';
  }

  /** A line break ends the fragment. */
  lemma LineEnds(text: string, line: string)
    requires line != "" && line[|line| - 1] == '\n'
    ensures Fragment(text + line) == "" && WholeLines(text + line) == text + line
    ensures Parse(text + line) == Parse(WholeLines(text)) + Parse(Fragment(text) + line)
  {
    hide Parse, Fragment, Complete, WholeLines;
    EndsInBreak(text, line);
    CompleteHasNoFragment(text + line);
    SplitIs(text);
    var a, f := WholeLines(text), Fragment(text);
    assert a + (f + line) == (a + f) + line;
    ParseConcat(a, f + line);
  }

  // ---- What fragments look like ----

  predicate PrintedChar(c: char) { HexValue(c).Some? || c == ' ' || c == '-' }

  ghost predicate Begins(f: string, id: NodeId) { |f| > 32 && f[..32] == HexEncode(id) && f[32] == ' ' }

  /** No blank among the first 32 characters; and if one follows them, they are one of these ids. */
  ghost predicate FragmentOk(f: string, ids: set<NodeId>) {
    && (forall i :: 0 <= i < |f| ==> PrintedChar(f[i]))
    && (forall i :: 0 <= i < |f| && i < 32 ==> f[i] != ' ')
    && (|f| > 32 && f[32] == ' ' ==> exists id :: id in ids && Begins(f, id))
  }

  lemma PrintedCharIs(c: char)
    requires PrintedChar(c)
    ensures c != '\n' && c != '\r' && (c != ' ' ==> !IsSpace(c))
  {
  }

  lemma HexDecodeLength(s: string)
    ensures HexDecode(s).Some? ==> 2 * |HexDecode(s).value| == |s|
  {
  }

  /** A fragment reads as nothing, or as one entry of the node it begins with. */
  lemma FragmentEntry(f: string, ids: set<NodeId>)
    requires FragmentOk(f, ids)
    ensures var p := Parse(f); p == [] || (|p| == 1 && p[0].id in ids && Begins(f, p[0].id))
  {
    hide Parse, ParseLine, PrintedChar;
    forall i | 0 <= i < |f|
      ensures f[i] != '\n' && f[i] != '\r'
    {
      PrintedCharIs(f[i]);
    }
    ParseOneLine(f);
    if f != "" {
      PrintedCharIs(f[0]);
    }
    FragmentLine(f, ids);
  }

  lemma TrimsToPrefix(f: string)
    requires f != "" ==> !IsSpace(f[0])
    ensures TrimSpace(f) <= f
  {
    hide IsSpace, TrimRight;
    assert TrimLeft(f, IsSpace) == f;
  }

  lemma FragmentLine(f: string, ids: set<NodeId>)
    requires FragmentOk(f, ids) && (f != "" ==> !IsSpace(f[0]))
    ensures var p := ParseLine(f); p.Some? ==> p.value.id in ids && Begins(f, p.value.id)
  {
    hide HexDecode, HexEncode, ParseInt64, PrintedChar, IsSpace, IndexOf, TrimSpace;
    TrimsToPrefix(f);
    var line := TrimSpace(f);
    var space := IndexOf(line, ' ');
    if ParseLine(f).Some? {
      HexDecodeLength(line[..space]);
      assert space == 32;
      assert line[32] == f[32] && line[..32] == f[..32];
      var id :| id in ids && Begins(f, id);
      HexRoundTrip(id);
    }
  }

  lemma BodyChars(e: WalEntry)
    ensures forall i :: 0 <= i < |Body(e)| ==> PrintedChar(Body(e)[i])
  {
    BodyShape(e);
    hide HexEncode, PrintInt;
    var b := Body(e);
    forall i | 0 <= i < |b|
      ensures PrintedChar(b[i])
    {
      if i < 32 {
        assert b[i] == HexEncode(e.id)[i];
      } else if i > 32 {
        assert b[i] == PrintInt(e.ts)[i - 33];
      }
    }
  }

  /** Part of a printed line glued to a fragment is a fragment; unless there was none, it begins with the same node. */
  lemma FragmentAppend(f: string, ids: set<NodeId>, e: WalEntry, c: nat)
    requires FragmentOk(f, ids) && c <= |Body(e)|
    ensures FragmentOk(f + Body(e)[..c], if f == "" then ids + {e.id} else ids)
  {
    BodyShape(e);
    BodyChars(e);
    BlankIsSpace();
    hide Body, PrintedChar, IsSpace;
    var cut := Body(e)[..c];
    var g := f + cut;
    assert forall i :: 0 <= i < |f| ==> g[i] == f[i];
    assert forall i :: 0 <= i < c ==> g[|f| + i] == Body(e)[i];
    if f == "" {
      assert g == cut;
      if c > 32 {
        assert Begins(g, e.id) by { assert g[..32] == Body(e)[..32]; }
      }
    } else if |f| <= 32 {
      NoBlankJoined(f, e, c);
    } else if f[32] == ' ' {
      var id :| id in ids && Begins(f, id);
      assert g[..32] == f[..32];
      assert Begins(g, id);
    }
  }

  lemma NoBlankJoined(f: string, e: WalEntry, c: nat)
    requires f != "" && |f| <= 32 && c <= |Body(e)|
    ensures var g := f + Body(e)[..c]; |g| > 32 ==> g[32] != ' '
  {
    BodyShape(e);
    BlankIsSpace();
    hide Body, IsSpace;
    if |f| + c > 32 {
      assert (f + Body(e)[..c])[32] == Body(e)[32 - |f|];
    }
  }

  // ---- A whole line glued to a fragment is lost with it ----

  lemma WrongIdNoEntry(line: string, space: nat)
    requires TrimSpace(line) == line && space < |line| && space != 32
    requires IndexOf(line, ' ') == space
    ensures ParseLine(line).None?
  {
    hide TrimSpace, HexDecode, ParseInt64, IndexOf;
    HexDecodeLength(line[..space]);
  }

  lemma WrongNumberNoEntry(line: string, at: nat)
    requires TrimSpace(line) == line && IndexOf(line, ' ') < at < |line| && line[at] == ' '
    ensures ParseLine(line).None?
  {
    hide TrimSpace, HexDecode, ParseInt64, IndexOf;
    var space := IndexOf(line, ' ');
    BlankIsNoNumber(line[space + 1..], at - space - 1);
  }

  lemma BlankIsNoNumber(s: string, at: nat)
    requires at < |s| && s[at] == ' '
    ensures ParseInt64(s).None?
  {
    if s[0] == '-' || s[0] == '+' {
      assert at > 0 && s[1..][at - 1] == ' ';
    }
    hide DigitsValue;
  }

  lemma GluedLineIsLost(f: string, ids: set<NodeId>, e: WalEntry)
    requires FragmentOk(f, ids) && f != ""
    ensures Parse(f + PrintLine(e)) == []
  {
    hide Parse, ParseLine, Body, FragmentOk, TrimSpace, IndexOf;
    var line := f + Body(e);
    assert f + PrintLine(e) == line + "\n";
    GluedLineShape(f, ids, e);
    ParseOneLine(line);
    if IndexOf(line, ' ') == 32 {
      WrongNumberNoEntry(line, |f| + 32);
    } else {
      WrongIdNoEntry(line, IndexOf(line, ' '));
    }
  }

  lemma IndexAtMost(s: string, c: char, i: nat)
    requires i < |s| && s[i] == c
    ensures IndexOf(s, c) <= i
  {
  }

  /** The first blank is in the wrong place, or a second one is in the number. */
  lemma GluedLineShape(f: string, ids: set<NodeId>, e: WalEntry)
    requires FragmentOk(f, ids) && f != ""
    ensures var line := f + Body(e);
            && (forall i :: 0 <= i < |line| ==> line[i] != '\n' && line[i] != '\r')
            && TrimSpace(line) == line && |f| + 32 < |line| && line[|f| + 32] == ' '
            && IndexOf(line, ' ') <= |f| + 32
  {
    BodyShape(e);
    BlankIsSpace();
    hide Body, PrintedChar, IsSpace, IndexOf;
    var line := f + Body(e);
    PrintedCharIs(f[0]);
    forall i | 0 <= i < |line|
      ensures line[i] != '\n' && line[i] != '\r'
    {
      if i < |f| {
        PrintedCharIs(f[i]);
      } else {
        assert line[i] == Body(e)[i - |f|];
      }
    }
    assert line[0] == f[0] && line[|line| - 1] == Body(e)[|Body(e)| - 1] && line[|f| + 32] == Body(e)[32];
    TrimNothing(line);
    hide TrimSpace;
    IndexAtMost(line, ' ', |f| + 32);
  }

  /** A log append torn after k characters, then a whole one, in the middle of a log: what each k leaves to be read. */
  lemma LineAfterTornAppend(text: string, torn: WalEntry, k: nat, e: WalEntry, rest: string)
    requires Complete(text) && k <= |PrintLine(torn)|
    ensures Parse(text + (PrintLine(torn)[..k] + PrintLine(e)) + rest)
         == Parse(text) + (if k == 0 then [e] else if k < |PrintLine(torn)| then [] else [torn, e]) + Parse(rest)
  {
    hide Parse, Body, HexEncode, PrintInt;
    ParsePrintedLine(torn);
    ParsePrintedLine(e);
    var cut := PrintLine(torn)[..k];
    var two := cut + PrintLine(e);
    if k == 0 {
      assert two == PrintLine(e);
    } else if k < |PrintLine(torn)| {
      FragmentAppend("", {}, torn, k);
      assert "" + Body(torn)[..k] == cut;
      GluedLineIsLost(cut, {} + {torn.id}, e);
    } else {
      assert cut == PrintLine(torn);
      ParseConcat(cut, PrintLine(e));
    }
    hide PrintLine;
    assert Complete(two);
    assert (text + two) + rest == text + (two + rest);
    ParseConcat(text, two + rest);
    ParseConcat(two, rest);
  }

  // ---- When a torn line still reads right ----

  lemma CutNumberDiffers(n: nat, cut: nat)
    requires 0 < cut < |Digits(n)|
    ensures Shorten(n, cut) != n
  {
    hide Digits;
    MoreThanOneDigit(n);
    ShortenSmaller(n / 10, cut - 1);
  }

  lemma MoreThanOneDigit(n: nat)
    requires |Digits(n)| > 1
    ensures n >= 10
  {
  }

  /** Whatever is missing of a number, but for nothing, changes it. */
  lemma TornNumber(v: int64, k: nat)
    requires k < |PrintInt(v)|
    ensures ParseInt64(PrintInt(v)[..k]) != Some(v)
  {
    hide Digits, DigitsValue, ParseInt64, Shorten;
    var s := PrintInt(v);
    var sign := if v < 0 then "-" else "";
    var mag: nat := if v < 0 then 0 - v else v;
    assert s == sign + Digits(mag);
    if k > |sign| {
      var cut := |Digits(mag)| - (k - |sign|);
      DigitsCut(mag, cut);
      ShortenSmaller(mag, cut);
      CutNumberDiffers(mag, cut);
      SignedDigitsParse(v < 0, Shorten(mag, cut));
      assert s[..k] == sign + Digits(mag)[..k - |sign|];
    } else {
      NoDigits(s[..k], sign);
    }
  }

  lemma NoDigits(s: string, sign: string)
    requires s <= sign && (sign == "" || sign == "-")
    ensures ParseInt64(s).None?
  {
    if s == "-" {
      assert s[1..] == "";
    }
  }

  /** A printed line reads as its entry as long as nothing but its line break is missing. */
  lemma TornLineReadsRight(e: WalEntry, c: nat)
    requires c <= |PrintLine(e)|
    ensures Parse(PrintLine(e)[..c]) == [e] <==> c >= |Body(e)|
  {
    hide Parse, ParseLine;
    var b := Body(e);
    BodyShape(e);
    if c <= |b| {
      assert PrintLine(e)[..c] == b[..c];
      ParseOneLine(b[..c]);
      CutBody(e, c);
      if c < |b| {
        TornBody(e, c);
      }
    } else {
      assert PrintLine(e)[..c] == PrintLine(e);
      ParsePrintedLine(e);
    }
  }

  lemma TornBody(e: WalEntry, c: nat)
    requires c < |Body(e)|
    ensures ParseLine(Body(e)[..c]) != Some(e)
  {
    BodyShape(e);
    hide Body, ParseLine, ParseInt64;
    var cut := Body(e)[..c];
    if c <= 33 {
      assert forall i :: 0 <= i < c && i != 32 ==> !IsSpace(cut[i]);
      NoNumberYet(cut);
    } else {
      assert cut == HexEncode(e.id) + " " + PrintInt(e.ts)[..c - 33] by {
        assert Body(e) == Body(e)[..32] + [Body(e)[32]] + Body(e)[33..];
      }
      TornNumber(e.ts, c - 33);
      IdAndNumber(cut, e.id, PrintInt(e.ts)[..c - 33]);
    }
  }

  // ---- Logs over a set of ids ----

  /** Every entry of a whole line names one of these ids, and so does the fragment if it names any. */
  ghost predicate LogOk(text: string, ids: set<NodeId>) {
    && (forall e :: e in Parse(WholeLines(text)) ==> e.id in ids)
    && FragmentOk(Fragment(text), ids)
  }

  lemma LogIds(text: string, ids: set<NodeId>)
    requires LogOk(text, ids)
    ensures forall e :: e in Parse(text) ==> e.id in ids
  {
    hide Parse, WholeLines, Fragment, FragmentOk;
    ParseSplit(text);
    FragmentEntry(Fragment(text), ids);
  }

  lemma LogOkMore(text: string, ids: set<NodeId>, more: set<NodeId>)
    requires LogOk(text, ids) && ids <= more
    ensures LogOk(text, more)
  {
    hide Parse, WholeLines, Fragment, PrintedChar;
  }

  lemma NothingLogged(ids: set<NodeId>)
    ensures Fragment("") == "" && WholeLines("") == "" && Parse("") == [] && LogOk("", ids)
  {
    hide Parse;
    ParseNothing();
  }

  /** Part of a line, or all of it, appended to any such log. */
  lemma LogAppend(text: string, ids: set<NodeId>, e: WalEntry, c: nat)
    requires LogOk(text, ids) && c <= |PrintLine(e)|
    ensures var f, cut := Fragment(text), PrintLine(e)[..c];
            && LogOk(text + cut, if f == "" then ids + {e.id} else ids)
            && Parse(text + cut) == Parse(WholeLines(text)) + Parse(f + cut)
            && (if c <= |Body(e)| then Fragment(text + cut) == f + cut && WholeLines(text + cut) == WholeLines(text)
                else Fragment(text + cut) == "" && WholeLines(text + cut) == text + cut
                     && Parse(f + cut) == if f == "" then [e] else [])
  {
    hide Parse, Body, WholeLines, Fragment, FragmentOk;
    var f, cut := Fragment(text), PrintLine(e)[..c];
    var more := if f == "" then ids + {e.id} else ids;
    if c <= |Body(e)| {
      assert cut == Body(e)[..c];
      CutHasNoBreak(e, c);
      FragmentGrows(text, cut);
      FragmentAppend(f, ids, e, c);
      ParseSplit(text + cut);
    } else {
      assert cut == PrintLine(e);
      LineEnds(text, cut);
      NoFragment(more);
      LineRead(f, ids, e);
    }
    hide PrintLine;
    assert forall x :: x in ids ==> x in more;
  }

  lemma CutHasNoBreak(e: WalEntry, c: nat)
    requires c <= |Body(e)|
    ensures forall i :: 0 <= i < c ==> Body(e)[..c][i] != '\n'
  {
    BodyShape(e);
    hide Body, IsSpace;
  }

  lemma LineRead(f: string, ids: set<NodeId>, e: WalEntry)
    requires FragmentOk(f, ids)
    ensures Parse(f + PrintLine(e)) == if f == "" then [e] else []
  {
    hide Parse, PrintLine, FragmentOk;
    if f == "" {
      ParsePrintedLine(e);
      assert "" + PrintLine(e) == PrintLine(e);
    } else {
      GluedLineIsLost(f, ids, e);
    }
  }

  lemma NoFragment(ids: set<NodeId>)
    ensures FragmentOk("", ids)
  {
  }

  lemma EndsInLine(text: string)
    requires Fragment(text) == ""
    ensures WholeLines(text) == text && Complete(text)
  {
    hide Fragment, Complete, WholeLines;
    SplitIs(text);
    assert WholeLines(text) + "" == WholeLines(text);
  }

  /** What such an append makes the log say of the node it is for, which the log did not know. */
  lemma FreshLogged(text: string, ids: set<NodeId>, e: WalEntry, c: nat)
    requires LogOk(text, ids) && e.id !in ids && c <= |PrintLine(e)|
    ensures var cut := PrintLine(e)[..c];
            var found := FirstLogged(Parse(text + cut), e.id);
            && found == (if Fragment(text) == "" then FirstLogged(Parse(cut), e.id) else None)
            && (found == Some(e.ts) <==> Fragment(text) == "" && c >= |Body(e)|)
  {
    hide Parse, Body, WholeLines, Fragment, LogOk, FirstLogged, Named, PrintLine;
    var f, cut := Fragment(text), PrintLine(e)[..c];
    LogAppend(text, ids, e, c);
    FirstLoggedIs(Parse(text + cut), e.id);
    if f == "" {
      LogIds(text, ids);
      EndsInLine(text);
      NotNamed(Parse(text), ids, e.id);
      FirstLoggedIs(Parse(text), e.id);
      assert "" + cut == cut;
      FirstLoggedConcat(Parse(text), Parse(cut), e.id);
      CutReads(e, c);
    } else {
      LogIds(text + cut, ids);
      NotNamed(Parse(text + cut), ids, e.id);
    }
  }

  lemma CutReads(e: WalEntry, c: nat)
    requires c <= |PrintLine(e)|
    ensures FirstLogged(Parse(PrintLine(e)[..c]), e.id) == Some(e.ts) <==> c >= |Body(e)|
    ensures forall e' :: e' in Parse(PrintLine(e)[..c]) ==> e'.id == e.id
  {
    hide Parse, Body, PrintLine, Shortened;
    ParseCutLine(e, c);
    TornLineReadsRight(e, c);
    var p := Parse(PrintLine(e)[..c]);
    assert p != [] ==> p == [p[0]] && p[0] == WalEntry(e.id, p[0].ts);
    assert p != [] ==> p[1..] == [];
  }

  lemma NotNamed(log: seq<WalEntry>, ids: set<NodeId>, id: NodeId)
    requires (forall e :: e in log ==> e.id in ids) && id !in ids
    ensures !Named(log, id)
  {
  }

  /** With no fragment in the way, or nothing appended, the log says of the others what it said. */
  lemma OthersLogged(text: string, e: WalEntry, c: nat, x: NodeId)
    requires x != e.id && c <= |PrintLine(e)| && (Fragment(text) == "" || c == 0)
    ensures FirstLogged(Parse(text + PrintLine(e)[..c]), x) == FirstLogged(Parse(text), x)
  {
    hide Parse, Body, WholeLines, Fragment, FirstLogged, Named, PrintLine;
    var cut := PrintLine(e)[..c];
    if c == 0 {
      assert text + cut == text;
    } else {
      EndsInLine(text);
      ParseConcat(text, cut);
      FirstLoggedConcat(Parse(text), Parse(cut), x);
      CutReads(e, c);
      NotNamed(Parse(cut), {e.id}, x);
      FirstLoggedIs(Parse(cut), x);
    }
  }

  // ---- Ids the log does not mention at all ----

  ghost predicate Mentioned(text: string, id: NodeId) { Named(Parse(WholeLines(text)), id) || Begins(Fragment(text), id) }

  lemma UnmentionedUnlogged(text: string, ids: set<NodeId>, id: NodeId)
    requires LogOk(text, ids) && !Mentioned(text, id)
    ensures !Named(Parse(text), id)
  {
    hide Parse, WholeLines, Fragment, FragmentOk, Begins;
    ParseSplit(text);
    FragmentEntry(Fragment(text), ids);
  }

  /** No append for another node makes the log mention an id. */
  lemma StaysUnmentioned(text: string, ids: set<NodeId>, e: WalEntry, c: nat, x: NodeId)
    requires LogOk(text, ids) && c <= |PrintLine(e)| && x != e.id && !Mentioned(text, x)
    ensures !Mentioned(text + PrintLine(e)[..c], x)
  {
    hide Parse, Body, WholeLines, Fragment, FragmentOk, Begins, LogOk;
    var f, cut := Fragment(text), PrintLine(e)[..c];
    LogAppend(text, ids, e, c);
    if c <= |Body(e)| {
      assert cut == Body(e)[..c];
      JoinedBegins(f, e, c, x);
    } else {
      NothingBegins(x);
      assert WholeLines(text + cut) == text + cut;
    }
  }

  lemma NothingBegins(x: NodeId)
    ensures !Begins("", x)
  {
  }

  lemma JoinedBegins(f: string, e: WalEntry, c: nat, x: NodeId)
    requires c <= |Body(e)| && x != e.id && !Begins(f, x)
    ensures !Begins(f + Body(e)[..c], x)
  {
    BodyShape(e);
    hide Body, HexEncode, IsSpace;
    var g := f + Body(e)[..c];
    if |f| > 32 {
      assert g[..32] == f[..32] && g[32] == f[32];
    } else if f != "" {
      NoBlankJoined(f, e, c);
    } else if c > 32 {
      assert g[..32] == Body(e)[..32];
      if HexEncode(x) == HexEncode(e.id) {
        HexInjective(x, e.id);
      }
    }
  }

  /** A log mentions a new id exactly if the append for it reached past the blank and ran into no fragment. */
  lemma OwnMention(text: string, ids: set<NodeId>, e: WalEntry, c: nat)
    requires LogOk(text, ids) && e.id !in ids && c <= |PrintLine(e)|
    ensures Mentioned(text + PrintLine(e)[..c], e.id) <==> Fragment(text) == "" && c > 32
  {
    hide Parse, Body, WholeLines, Fragment, FragmentOk, Begins, PrintLine;
    var f, cut := Fragment(text), PrintLine(e)[..c];
    LogAppend(text, ids, e, c);
    NotNamed(Parse(WholeLines(text)), ids, e.id);
    if c <= |Body(e)| {
      assert cut == Body(e)[..c] by { PrintedStart(e, c); }
      if f == "" {
        OwnBegins(e, c);
        assert f + Body(e)[..c] == Body(e)[..c];
      } else {
        NotBegun(f, ids, e.id);
        OthersBegin(f, e, c);
      }
    } else {
      NothingBegins(e.id);
      ParseSplit(text + cut);
      BodyLength(e);
      if f == "" {
        assert e in Parse(text + cut);
      } else {
        assert Parse(text + cut) == Parse(WholeLines(text)) + [];
      }
    }
  }

  lemma BodyLength(e: WalEntry)
    ensures |Body(e)| > 33
  {
    BodyShape(e);
  }

  lemma PrintedStart(e: WalEntry, c: nat)
    requires c <= |Body(e)|
    ensures PrintLine(e)[..c] == Body(e)[..c]
  {
    hide Body;
  }

  lemma OwnBegins(e: WalEntry, c: nat)
    requires c <= |Body(e)|
    ensures Begins(Body(e)[..c], e.id) <==> c > 32
  {
    BodyShape(e);
    hide Body, HexEncode, IsSpace;
    if c > 32 {
      assert Body(e)[..c][..32] == Body(e)[..32];
    }
  }

  lemma NotBegun(f: string, ids: set<NodeId>, id: NodeId)
    requires FragmentOk(f, ids) && id !in ids
    ensures !Begins(f, id)
  {
    hide HexEncode, PrintedChar;
    if Begins(f, id) {
      var x :| x in ids && Begins(f, x);
      HexInjective(x, id);
    }
  }

  lemma OthersBegin(f: string, e: WalEntry, c: nat)
    requires f != "" && c <= |Body(e)| && !Begins(f, e.id)
    ensures !Begins(f + Body(e)[..c], e.id)
  {
    hide Body, HexEncode;
    var g := f + Body(e)[..c];
    if |f| > 32 {
      assert g[..32] == f[..32] && g[32] == f[32];
    } else {
      NoBlankJoined(f, e, c);
    }
  }
}
