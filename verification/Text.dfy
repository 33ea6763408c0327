/** The pieces of Go's encoding/hex, strconv and strings that the store and the tag parser rely on. */
module Text {
  import opened Wrappers

  type byte = x: int | 0 <= x < 256

  /** A 64-bit signed integer: Unix nanoseconds everywhere in this project. */
  const INT64_LIMIT: int := 0x8000_0000_0000_0000
  type int64 = x: int | -0x8000_0000_0000_0000 <= x < 0x8000_0000_0000_0000

  // ---- Hexadecimal ----

  function HexDigit(n: int): (c: char)
    requires 0 <= n < 16
    ensures HexValue(c) == Some(n)
  {
    if n < 10 then '0' + n as char else 'a' + (n - 10) as char
  }

  /** Either letter case is accepted, as encoding/hex does. */
  function HexValue(c: char): (r: Option<int>)
    ensures r.Some? ==> 0 <= r.value < 16 && !IsSpace(c)
  {
    if '0' <= c <= '9' then Some(c as int - '0' as int)
    else if 'a' <= c <= 'f' then Some(c as int - 'a' as int + 10)
    else if 'A' <= c <= 'F' then Some(c as int - 'A' as int + 10)
    else None
  }

  function HexEncode(bs: seq<byte>): (s: string)
    ensures |s| == 2 * |bs|
    ensures forall i :: 0 <= i < |s| ==> HexValue(s[i]).Some?
  {
    if bs == [] then "" else [HexDigit(bs[0] / 16), HexDigit(bs[0] % 16)] + HexEncode(bs[1..])
  }

  /** An odd length or a foreign character is an error. */
  function HexDecode(s: string): Option<seq<byte>> {
    if s == "" then Some([])
    else if |s| == 1 then None
    else
      match (HexValue(s[0]), HexValue(s[1]), HexDecode(s[2..]))
      case (Some(hi), Some(lo), Some(rest)) => Some([hi * 16 + lo] + rest)
      case _ => None
  }

  lemma {:induction false} HexRoundTrip(bs: seq<byte>)
    ensures HexDecode(HexEncode(bs)) == Some(bs)
  {
    if bs != [] {
      HexRoundTrip(bs[1..]);
      assert HexEncode(bs)[2..] == HexEncode(bs[1..]);
      assert [bs[0]] + bs[1..] == bs;
    }
  }

  lemma HexInjective(a: seq<byte>, b: seq<byte>)
    requires HexEncode(a) == HexEncode(b)
    ensures a == b
  {
    HexRoundTrip(a);
    HexRoundTrip(b);
  }

  // ---- Decimal ----

  predicate IsDigit(c: char) { '0' <= c <= '9' }

  predicate AllDigits(s: string) { forall i :: 0 <= i < |s| ==> IsDigit(s[i]) }

  function Digits(n: nat): (s: string)
    ensures |s| >= 1 && AllDigits(s)
  {
    var last := ['0' + (n % 10) as char];
    if n < 10 then last else Digits(n / 10) + last
  }

  function DigitsValue(s: string): nat
    requires AllDigits(s)
  {
    if s == "" then 0
    else 10 * DigitsValue(s[..|s| - 1]) + (s[|s| - 1] as int - '0' as int)
  }

  /** What fmt prints for %d. */
  function PrintInt(v: int): (s: string)
    ensures |s| >= 1
    ensures forall i :: 0 <= i < |s| ==> IsDigit(s[i]) || s[i] == '-'
  {
    if v < 0 then "-" + Digits(-v) else Digits(v)
  }

  /** strconv.ParseInt(s, 10, 64): an optional sign, at least one digit, nothing else, and in range. */
  function ParseInt64(s: string): Option<int64> {
    if s == "" then None
    else
      var signed := s[0] == '-' || s[0] == '+';
      var body := if signed then s[1..] else s;
      if body == "" || !AllDigits(body) then None
      else
        var magnitude: int := DigitsValue(body);
        if s[0] == '-' then
          (if magnitude <= INT64_LIMIT then Some(-magnitude) else None)
        else
          (if magnitude < INT64_LIMIT then Some(magnitude) else None)
  }

  lemma {:induction false} DigitsRoundTrip(n: nat)
    ensures DigitsValue(Digits(n)) == n
  {
    var s := Digits(n);
    if n >= 10 {
      DigitsRoundTrip(n / 10);
      assert s[..|s| - 1] == Digits(n / 10);
    } else {
      assert s[..|s| - 1] == "";
    }
  }

  lemma SignedDigitsParse(negative: bool, m: nat)
    requires if negative then m <= INT64_LIMIT else m < INT64_LIMIT
    ensures ParseInt64((if negative then "-" else "") + Digits(m)) == Some(if negative then 0 - m else m)
  {
    DigitsRoundTrip(m);
    hide Digits, DigitsValue;
    var s := (if negative then "-" else "") + Digits(m);
    if negative {
      assert s[1..] == Digits(m);
    } else {
      assert s == Digits(m);
    }
  }

  /** n without its last k decimal digits. */
  function Shorten(n: nat, k: nat): nat {
    if k == 0 then n else Shorten(n / 10, k - 1)
  }

  /** A prefix of a printed number prints a shortened number. */
  lemma {:induction false} DigitsCut(n: nat, cut: nat)
    requires cut < |Digits(n)|
    ensures Digits(n)[..|Digits(n)| - cut] == Digits(Shorten(n, cut))
    decreases cut
  {
    var s := Digits(n);
    if cut == 0 {
      assert s[..|s|] == s;
    } else {
      var t := Digits(n / 10);
      assert s[..|s| - 1] == t;
      DigitsCut(n / 10, cut - 1);
      assert s[..|s| - cut] == t[..|t| - (cut - 1)];
    }
  }

  // ---- Trimming and searching ----

  /** The characters below U+0100 that unicode.IsSpace accepts. */
  predicate IsSpace(c: char) {
    c == ' ' || '\t' <= c <= '\r' || c == 0x85 as char || c == 0xA0 as char
  }

  function TrimLeft(s: string, drop: char -> bool): (r: string)
    ensures |r| <= |s| && r == s[|s| - |r|..]
    ensures r != "" ==> !drop(r[0])
    ensures forall i :: 0 <= i < |s| - |r| ==> drop(s[i])
  {
    if s != "" && drop(s[0]) then TrimLeft(s[1..], drop) else s
  }

  function TrimRight(s: string, drop: char -> bool): (r: string)
    ensures r <= s
    ensures r != "" ==> !drop(r[|r| - 1])
    ensures forall i :: |r| <= i < |s| ==> drop(s[i])
  {
    if s != "" && drop(s[|s| - 1]) then TrimRight(s[..|s| - 1], drop) else s
  }

  function Trim(s: string, drop: char -> bool): string {
    TrimRight(TrimLeft(s, drop), drop)
  }

  function TrimSpace(s: string): string { Trim(s, IsSpace) }

  /** The position of the first c, or |s| when there is none. */
  function IndexOf(s: string, c: char): (i: nat)
    ensures i <= |s|
    ensures i < |s| ==> s[i] == c
    ensures forall k :: 0 <= k < i ==> s[k] != c
  {
    if s == "" || s[0] == c then 0 else 1 + IndexOf(s[1..], c)
  }

  lemma IndexOfIs(s: string, c: char, i: nat)
    requires i <= |s| && (i < |s| ==> s[i] == c)
    requires forall k :: 0 <= k < i ==> s[k] != c
    ensures IndexOf(s, c) == i
  {
  }
}
