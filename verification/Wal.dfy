/** The write-ahead log as text: one line "<hex id> <unix nanoseconds>" per intended write. */
module Wal {
  import opened Wrappers
  import opened Text

  const ID_LEN := 16
  type NodeId = s: seq<byte> | |s| == ID_LEN
    witness [0, 0, 0, 0, 0, 0, 0, 0, 0, 0, 0, 0, 0, 0, 0, 0]

  datatype WalEntry = WalEntry(id: NodeId, ts: int64)

  // ---- Printing ----

  function Body(e: WalEntry): string { HexEncode(e.id) + " " + PrintInt(e.ts) }

  function PrintLine(e: WalEntry): string { Body(e) + "\n" }

  function PrintLines(es: seq<WalEntry>): string {
    if es == [] then "" else PrintLine(es[0]) + PrintLines(es[1..])
  }

  // ---- Parsing ----

  function DropCR(line: string): string {
    if line != "" && line[|line| - 1] == '\r' then line[..|line| - 1] else line
  }

  /** bufio.ScanLines: a last line without a newline is still a line, an empty rest is not. */
  function SplitLines(text: string): seq<string> {
    if text == "" then []
    else
      var i := IndexOf(text, '\n');
      if i == |text| then [DropCR(text)] else [DropCR(text[..i])] + SplitLines(text[i + 1..])
  }

  /** One line as replay reads it; a line it would skip is None. */
  function ParseLine(raw: string): Option<WalEntry> {
    var line := TrimSpace(raw);
    var space := IndexOf(line, ' ');
    if space == |line| then None
    else
      match (HexDecode(line[..space]), ParseInt64(line[space + 1..]))
      case (Some(id), Some(ts)) => if |id| == ID_LEN then Some(WalEntry(id, ts)) else None
      case _ => None
  }

  function ParseLines(lines: seq<string>): seq<WalEntry> {
    if lines == [] then []
    else
      match ParseLine(lines[0])
      case Some(e) => [e] + ParseLines(lines[1..])
      case None => ParseLines(lines[1..])
  }

  function Parse(text: string): seq<WalEntry> { ParseLines(SplitLines(text)) }

  /** No line is cut short. */
  predicate Complete(text: string) { text == "" || text[|text| - 1] == '\n' }

  // ---- Looking an id up in a log ----

  /** The timestamp of the first entry for this id. */
  function FirstLogged(log: seq<WalEntry>, id: NodeId): Option<int64> {
    if log == [] then None
    else if log[0].id == id then Some(log[0].ts)
    else FirstLogged(log[1..], id)
  }

  ghost predicate Named(log: seq<WalEntry>, id: NodeId) { exists e :: e in log && e.id == id }

  lemma {:induction false} FirstLoggedIs(log: seq<WalEntry>, id: NodeId)
    ensures FirstLogged(log, id).Some? <==> Named(log, id)
    ensures FirstLogged(log, id).Some? ==> WalEntry(id, FirstLogged(log, id).value) in log
  {
    if log != [] {
      FirstLoggedIs(log[1..], id);
      assert forall e :: e in log <==> e == log[0] || e in log[1..];
    }
  }

  lemma {:induction false} FirstLoggedConcat(a: seq<WalEntry>, b: seq<WalEntry>, id: NodeId)
    ensures FirstLogged(a + b, id) == if FirstLogged(a, id).Some? then FirstLogged(a, id) else FirstLogged(b, id)
    decreases |a|
  {
    if a == [] {
      assert a + b == b;
    } else {
      assert (a + b)[1..] == a[1..] + b;
      FirstLoggedConcat(a[1..], b, id);
    }
  }

  // ---- Lines are parsed independently ----

  lemma {:induction false} ParseLinesConcat(a: seq<string>, b: seq<string>)
    ensures ParseLines(a + b) == ParseLines(a) + ParseLines(b)
  {
    if a == [] {
      assert a + b == b;
    } else {
      hide ParseLine;
      assert (a + b)[1..] == a[1..] + b;
      ParseLinesConcat(a[1..], b);
    }
  }

  lemma {:induction false} SplitLinesConcat(a: string, b: string)
    requires Complete(a)
    ensures SplitLines(a + b) == SplitLines(a) + SplitLines(b)
    decreases |a|
  {
    hide DropCR, IndexOf, SplitLines;
    if a == "" {
      assert a + b == b;
      NoLines();
    } else {
      var i := IndexOf(a, '\n');
      assert a[|a| - 1] == '\n';
      LaterLines(a, b, i);
      FirstLine(a, i);
      FirstLine(a + b, i);
      SplitLinesConcat(a[i + 1..], b);
    }
  }

  lemma NoLines()
    ensures SplitLines("") == []
  {
  }

  lemma LaterLines(a: string, b: string, i: nat)
    requires i < |a| && IndexOf(a, '\n') == i
    ensures IndexOf(a + b, '\n') == i
    ensures (a + b)[..i] == a[..i] && (a + b)[i + 1..] == a[i + 1..] + b
  {
    hide IndexOf;
    IndexOfIs(a + b, '\n', i);
  }

  lemma FirstLine(text: string, i: nat)
    requires i < |text| && IndexOf(text, '\n') == i
    ensures SplitLines(text) == [DropCR(text[..i])] + SplitLines(text[i + 1..])
  {
    hide DropCR, IndexOf;
  }

  /** Appending to a log whose last line is whole never disturbs what is already there. */
  lemma ParseConcat(a: string, b: string)
    requires Complete(a)
    ensures Parse(a + b) == Parse(a) + Parse(b)
  {
    SplitLinesConcat(a, b);
    ParseLinesConcat(SplitLines(a), SplitLines(b));
  }

  /** A text without line breaks is one line, with or without its newline. */
  lemma ParseOneLine(line: string)
    requires forall i :: 0 <= i < |line| ==> line[i] != '\n' && line[i] != '\r'
    ensures Parse(line) == Parse(line + "\n") == (match ParseLine(line) case Some(e) => [e] case None => [])
  {
    OneLine(line);
    OneLineNewline(line);
    assert ParseLines([line]) == match ParseLine(line) case Some(e) => [e] case None => [];
    if line == "" {
      assert ParseLine(line) == None;
    }
  }

  lemma OneLine(line: string)
    requires forall i :: 0 <= i < |line| ==> line[i] != '\n' && line[i] != '\r'
    ensures SplitLines(line) == if line == "" then [] else [line]
  {
    IndexOfIs(line, '\n', |line|);
  }

  lemma OneLineNewline(line: string)
    requires forall i :: 0 <= i < |line| ==> line[i] != '\n' && line[i] != '\r'
    ensures SplitLines(line + "\n") == [line]
  {
    var text := line + "\n";
    IndexOfIs(text, '\n', |line|);
    assert text[..|line|] == line;
    assert text[|line| + 1..] == "";
    assert SplitLines("") == [];
  }

  // ---- One printed line, whole or cut ----

  lemma BodyShape(e: WalEntry)
    ensures var b := Body(e);
            |b| > 33 && b[..32] == HexEncode(e.id) && b[32] == ' ' && b[33..] == PrintInt(e.ts)
    ensures forall i :: 0 <= i < |Body(e)| ==> Body(e)[i] != '\n' && Body(e)[i] != '\r'
    ensures forall i :: 0 <= i < |Body(e)| && i != 32 ==> !IsSpace(Body(e)[i])
  {
  }

  lemma TrimNothing(s: string)
    requires s == "" || (!IsSpace(s[0]) && !IsSpace(s[|s| - 1]))
    ensures TrimSpace(s) == s
  {
  }

  /** What a number reads as when only its first characters are there. */
  ghost predicate Shortened(t: int, v: int) {
    exists k: nat :: t == ShortenSigned(v, k)
  }

  ghost function ShortenSigned(v: int, k: nat): int {
    if v < 0 then 0 - Shorten(0 - v, k) else Shorten(v, k)
  }

  lemma ShortenSmaller(n: nat, k: nat)
    ensures Shorten(n, k) <= n
  {
  }

  lemma ShortenNothing(n: nat)
    ensures Shorten(n, 0) == n
  {
  }

  lemma CutNumber(v: int, k: nat)
    requires -INT64_LIMIT <= v < INT64_LIMIT
    requires k <= |PrintInt(v)|
    ensures k == |PrintInt(v)| ==> ParseInt64(PrintInt(v)[..k]) == Some(v)
    ensures var p := ParseInt64(PrintInt(v)[..k]); p.Some? ==> Shortened(p.value, v)
  {
    hide Digits, DigitsValue;
    var s := PrintInt(v);
    var sign := if v < 0 then "-" else "";
    var mag: nat := if v < 0 then 0 - v else v;
    assert s == sign + Digits(mag);
    if k > |sign| {
      CutDigits(v, mag, sign, k - |sign|);
      assert s[..k] == sign + Digits(mag)[..k - |sign|];
    }
  }

  lemma CutDigits(v: int, mag: nat, sign: string, k: nat)
    requires -INT64_LIMIT <= v < INT64_LIMIT
    requires sign == (if v < 0 then "-" else "") && mag == if v < 0 then 0 - v else v
    requires 1 <= k <= |Digits(mag)|
    ensures exists cut: nat :: ParseInt64(sign + Digits(mag)[..k]) == Some(ShortenSigned(v, cut))
    ensures k == |Digits(mag)| ==> ParseInt64(sign + Digits(mag)[..k]) == Some(v)
  {
    hide Digits, DigitsValue, ParseInt64, Shorten;
    var cut := |Digits(mag)| - k;
    DigitsCut(mag, cut);
    ShortenSmaller(mag, cut);
    ShortenNothing(mag);
    SignedDigitsParse(v < 0, Shorten(mag, cut));
    assert ShortenSigned(v, cut) == if v < 0 then 0 - Shorten(mag, cut) else Shorten(mag, cut);
  }

  /** A line cut after k characters: nothing until the first digit is there, then the same id with a shortened number. */
  lemma CutBody(e: WalEntry, k: nat)
    requires k <= |Body(e)|
    ensures k == |Body(e)| ==> ParseLine(Body(e)[..k]) == Some(e)
    ensures var p := ParseLine(Body(e)[..k]);
            p.Some? ==> p.value.id == e.id && Shortened(p.value.ts, e.ts)
  {
    BodyShape(e);
    hide Body, ParseLine, ParseInt64, Shortened;
    var cut := Body(e)[..k];
    if k <= 33 {
      assert forall i :: 0 <= i < k && i != 32 ==> !IsSpace(cut[i]);
      NoNumberYet(cut);
    } else {
      assert cut == HexEncode(e.id) + " " + PrintInt(e.ts)[..k - 33] by {
        assert Body(e) == Body(e)[..32] + [Body(e)[32]] + Body(e)[33..];
      }
      CutNumber(e.ts, k - 33);
      IdAndNumber(cut, e.id, PrintInt(e.ts)[..k - 33]);
    }
  }

  lemma NoNumberYet(cut: string)
    requires |cut| <= 33 && (|cut| == 33 ==> cut[32] == ' ')
    requires forall i :: 0 <= i < |cut| && i != 32 ==> !IsSpace(cut[i])
    ensures ParseLine(cut).None?
  {
    hide ParseLine, TrimSpace;
    var line := cut;
    BlankIsSpace();
    if |cut| == 33 {
      line := cut[..32];
      TrimOneBlank(cut);
    } else {
      TrimNothing(cut);
    }
    NoBlankNoEntry(cut, line);
  }

  lemma NoBlankNoEntry(raw: string, line: string)
    requires TrimSpace(raw) == line
    requires forall i :: 0 <= i < |line| ==> line[i] != ' '
    ensures ParseLine(raw).None?
  {
    hide TrimSpace, HexDecode, ParseInt64;
    IndexOfIs(line, ' ', |line|);
  }

  lemma BlankIsSpace()
    ensures IsSpace(' ')
  {
  }

  lemma IdAndNumber(line: string, id: NodeId, number: string)
    requires line == HexEncode(id) + " " + number
    requires number != "" && forall i :: 0 <= i < |number| ==> IsDigit(number[i]) || number[i] == '-'
    ensures ParseLine(line) == match ParseInt64(number) case Some(ts) => Some(WalEntry(id, ts)) case None => None
  {
    hide HexDecode, ParseInt64;
    assert line[..32] == HexEncode(id) && line[32] == ' ' && line[33..] == number;
    assert !IsSpace(line[0]) && !IsSpace(line[|line| - 1]);
    TrimNothing(line);
    assert forall i :: 0 <= i < 32 ==> line[i] == HexEncode(id)[i];
    IndexOfIs(line, ' ', 32);
    HexRoundTrip(id);
  }

  lemma ParseNothing()
    ensures Parse("") == []
  {
  }

  lemma TrimOneBlank(s: string)
    requires |s| > 1 && IsSpace(s[|s| - 1]) && !IsSpace(s[0]) && !IsSpace(s[|s| - 2])
    ensures TrimSpace(s) == s[..|s| - 1]
  {
    assert TrimLeft(s, IsSpace) == s;
    assert TrimRight(s[..|s| - 1], IsSpace) == s[..|s| - 1];
  }

  lemma ParsePrintedLine(e: WalEntry)
    ensures Parse(PrintLine(e)) == [e]
    ensures Complete(PrintLine(e))
  {
    var b := Body(e);
    CutBody(e, |b|);
    assert b[..|b|] == b;
    BodyShape(e);
    ParseOneLine(b);
  }

  /** The append of one line, stopped anywhere: at most one entry appears, and it names the same id. */
  lemma ParseCutLine(e: WalEntry, k: nat)
    requires k <= |PrintLine(e)|
    ensures var p := Parse(PrintLine(e)[..k]);
            p == [] || (|p| == 1 && p[0].id == e.id && Shortened(p[0].ts, e.ts))
  {
    BodyShape(e);
    hide Parse, ParseLine, Body, IsSpace, HexEncode, PrintInt, Shortened;
    var b := Body(e);
    if k <= |b| {
      assert PrintLine(e)[..k] == b[..k];
      CutBody(e, k);
      ParseOneLine(b[..k]);
    } else {
      assert PrintLine(e)[..k] == PrintLine(e);
      ParsePrintedLine(e);
      NotShortened(e.ts);
    }
  }

  lemma NotShortened(v: int)
    ensures Shortened(v, v)
  {
    assert Shorten(if v < 0 then 0 - v else v, 0) == if v < 0 then 0 - v else v;
    assert ShortenSigned(v, 0) == v;
  }

  // ---- The whole log ----

  lemma PrintLinesComplete(es: seq<WalEntry>)
    ensures Complete(PrintLines(es))
  {
  }

  /** A log that was written without interruption may be appended to. */
  lemma PrintedLogMayGrow(es: seq<WalEntry>, text: string)
    ensures Parse(PrintLines(es) + text) == es + Parse(text)
  {
    hide Parse, PrintLines;
    PrintLinesComplete(es);
    ParseConcat(PrintLines(es), text);
    ParsePrintedLog(es);
  }

  /** Reading back a log that was written without interruption gives exactly its entries. */
  lemma {:induction false} ParsePrintedLog(es: seq<WalEntry>)
    ensures Parse(PrintLines(es)) == es
  {
    hide Parse, PrintLine;
    if es == [] {
      ParseNothing();
    } else {
      ParsePrintedLine(es[0]);
      ParseConcat(PrintLine(es[0]), PrintLines(es[1..]));
      ParsePrintedLog(es[1..]);
    }
  }

  /** The entries of the first `whole` lines, then at most one with the id of the next line. */
  ghost predicate EntriesOfCut(p: seq<WalEntry>, es: seq<WalEntry>, whole: nat) {
    && whole <= |es|
    && es[..whole] <= p
    && (|p| == whole
        || (|p| == whole + 1 <= |es| && p[whole].id == es[whole].id && Shortened(p[whole].ts, es[whole].ts)))
  }

  /** Reading any byte prefix gives the entries of the whole lines, then at most one more for the line that was cut. */
  lemma {:induction false} ParseLogPrefix(es: seq<WalEntry>, k: nat) returns (whole: nat)
    requires k <= |PrintLines(es)|
    ensures whole <= |es|
    ensures |PrintLines(es[..whole])| <= k
    ensures whole < |es| ==> k < |PrintLines(es[..whole + 1])|
    ensures EntriesOfCut(Parse(PrintLines(es)[..k]), es, whole)
  {
    hide Parse, PrintLine;
    var text := PrintLines(es);
    if es == [] {
      ParseNothing();
      return 0;
    }
    var line := PrintLine(es[0]);
    assert PrintLines(es[..1]) == line by { assert es[..1] == [es[0]]; assert PrintLines([]) == ""; }
    if k < |line| {
      assert text[..k] == line[..k];
      ParseCutLine(es[0], k);
      whole := 0;
    } else {
      var rest := ParseLogPrefix(es[1..], k - |line|);
      whole := rest + 1;
      assert text[..k] == line + PrintLines(es[1..])[..k - |line|];
      ParsePrintedLine(es[0]);
      ParseConcat(line, PrintLines(es[1..])[..k - |line|]);
      assert es[..whole][1..] == es[1..][..rest];
      if whole < |es| {
        assert es[..whole + 1][1..] == es[1..][..rest + 1];
      }
    }
  }
}
