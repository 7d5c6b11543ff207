/** Splitting, joining and decimal spelling of strings, as Rust's `str` does them. */
module Text {
  import opened Prelude

  predicate IsDigit(c: char) {
    '0' <= c <= '9'
  }

  predicate IsLower(c: char) {
    'a' <= c <= 'z'
  }

  predicate IsUpper(c: char) {
    'A' <= c <= 'Z'
  }

  predicate IsAlpha(c: char) {
    IsLower(c) || IsUpper(c)
  }

  predicate IsAlphanumeric(c: char) {
    IsAlpha(c) || IsDigit(c)
  }

  function LowerChar(c: char): char {
    if IsUpper(c) then (c as int + 32) as char else c
  }

  function UpperChar(c: char): char {
    if IsLower(c) then (c as int - 32) as char else c
  }

  function Lower(s: string): (lowered: string)
    ensures |lowered| == |s|
    ensures forall i | 0 <= i < |s| :: lowered[i] == LowerChar(s[i])
  {
    seq(|s|, i requires 0 <= i < |s| => LowerChar(s[i]))
  }

  predicate IsHexDigit(c: char) {
    IsDigit(c) || 'a' <= c <= 'f' || 'A' <= c <= 'F'
  }

  // Unicode white space, as `str::trim` sees it.
  predicate IsSpace(c: char) {
    var code := c as int;
    || 9 <= code <= 13 || code == 32 || code == 0x85 || code == 0xA0 || code == 0x1680
    || 0x2000 <= code <= 0x200A || code == 0x2028 || code == 0x2029 || code == 0x202F || code == 0x205F ||
      code == 0x3000
  }

  predicate IsControl(c: char) {
    c as int < 32 || 127 <= c as int < 160
  }

  function StripStart(s: string): string {
    if s != "" && IsSpace(s[0]) then StripStart(s[1..]) else s
  }

  function StripEnd(s: string): string {
    if s != "" && IsSpace(s[|s| - 1]) then StripEnd(s[..|s| - 1]) else s
  }

  // `str::trim`.
  function Strip(s: string): string {
    StripEnd(StripStart(s))
  }

  // Trimming takes away at most the white space that was put in front.
  lemma StripSpaced(s: string)
    requires s != "" && !IsSpace(s[0]) && !IsSpace(s[|s| - 1])
    ensures Strip(s) == s && Strip(" " + s) == s
  {
    assert (" " + s)[1..] == s;
  }

  predicate StartsWith(s: string, prefix: string) {
    |prefix| <= |s| && s[..|prefix|] == prefix
  }

  // ------------------------------------------------------- splitting, joining

  // `str::split` on a class of separator characters.
  function SplitOn(s: string, separator: char -> bool): (parts: seq<string>)
    ensures |parts| >= 1
  {
    if s == "" then [""]
    else
      var rest := SplitOn(s[1..], separator);
      if separator(s[0]) then [""] + rest else [[s[0]] + rest[0]] + rest[1..]
  }

  function Join(parts: seq<string>, between: string): string {
    if parts == [] then ""
    else if |parts| == 1 then parts[0]
    else parts[0] + between + Join(parts[1..], between)
  }

  ghost predicate Free(s: string, separator: char -> bool) {
    forall c | c in s :: !separator(c)
  }

  lemma {:induction false} SplitFree(s: string, separator: char -> bool)
    requires Free(s, separator)
    ensures SplitOn(s, separator) == [s]
  {
    if s != "" {
      assert s[0] in s && Free(s[1..], separator);
      SplitFree(s[1..], separator);
      assert [s[0]] + s[1..] == s;
    }
  }

  lemma {:induction false} SplitParts(s: string, separator: char -> bool)
    ensures forall part | part in SplitOn(s, separator) :: Free(part, separator)
    ensures forall part, c | part in SplitOn(s, separator) && c in part :: c in s
  {
    if s != "" {
      var rest := SplitOn(s[1..], separator);
      SplitParts(s[1..], separator);
      assert rest[0] in rest;
      if !separator(s[0]) {
        assert Free([s[0]] + rest[0], separator);
        assert forall part | part in rest[1..] :: part in rest;
      }
    }
  }

  lemma {:induction false} SplitCovers(s: string, separator: char -> bool)
    ensures forall c | c in s :: separator(c) || exists part :: part in SplitOn(s, separator) && c in part
  {
    if s != "" {
      var rest, parts := SplitOn(s[1..], separator), SplitOn(s, separator);
      SplitCovers(s[1..], separator);
      assert s == [s[0]] + s[1..];
      forall c | c in s && !separator(c)
        ensures exists part :: part in parts && c in part
      {
        if !separator(s[0]) {
          assert parts[0] in parts;
        }
        if c in s[1..] {
          var part :| part in rest && c in part;
          var k :| 0 <= k < |rest| && rest[k] == part;
          if separator(s[0]) {
            assert parts[k + 1] == part;
          } else {
            assert parts[k] == if k == 0 then [s[0]] + part else part;
            assert c in parts[k];
          }
        }
      }
    }
  }

  lemma {:induction false} SplitLast(s: string, separator: char -> bool)
    requires s != ""
    ensures var parts := SplitOn(s, separator);
      var last := parts[|parts| - 1];
      (last != "" ==> last[|last| - 1] == s[|s| - 1]) && (|parts| == 1 ==> last == s)
  {
    var rest, parts := SplitOn(s[1..], separator), SplitOn(s, separator);
    if |s| > 1 {
      SplitLast(s[1..], separator);
      if separator(s[0]) || |rest| > 1 {
        assert parts[|parts| - 1] == rest[|rest| - 1];
      } else {
        assert parts == [[s[0]] + rest[0]];
      }
    } else {
      assert s[1..] == "";
    }
  }

  // The first and last parts hold the ends of the string, when they are not empty.
  lemma SplitEnds(s: string, separator: char -> bool)
    requires s != ""
    ensures var parts := SplitOn(s, separator);
      && (parts[0] != "" ==> parts[0][0] == s[0])
      && (parts[|parts| - 1] != "" ==> parts[|parts| - 1][|parts[|parts| - 1]| - 1] == s[|s| - 1])
  {
    SplitLast(s, separator);
  }

  lemma {:induction false} SplitHead(head: string, c: char, tail: string, separator: char -> bool)
    requires Free(head, separator) && separator(c)
    ensures SplitOn(head + [c] + tail, separator) == [head] + SplitOn(tail, separator)
  {
    if head == "" {
      assert (head + [c] + tail)[1..] == tail;
    } else {
      assert head[0] in head && Free(head[1..], separator);
      SplitHead(head[1..], c, tail, separator);
      assert (head + [c] + tail)[1..] == head[1..] + [c] + tail;
      assert [head[0]] + head[1..] == head;
    }
  }

  lemma {:induction false} SplitOfJoin(parts: seq<string>, c: char, separator: char -> bool)
    requires parts != [] && separator(c)
    requires forall part | part in parts :: Free(part, separator)
    ensures SplitOn(Join(parts, [c]), separator) == parts
  {
    assert parts[0] in parts;
    if |parts| == 1 {
      SplitFree(parts[0], separator);
    } else {
      forall part | part in parts[1..]
        ensures Free(part, separator)
      {
        assert part in parts;
      }
      SplitOfJoin(parts[1..], c, separator);
      SplitHead(parts[0], c, Join(parts[1..], [c]), separator);
      assert [parts[0]] + parts[1..] == parts;
    }
  }

  lemma {:induction false} JoinChars(parts: seq<string>, between: string)
    ensures forall c | c in Join(parts, between) :: c in between || exists part :: part in parts && c in part
  {
    if |parts| > 1 {
      JoinChars(parts[1..], between);
      assert forall part | part in parts[1..] :: part in parts;
    }
    if parts != [] {
      assert parts[0] in parts;
    }
  }

  // ------------------------------------------------------------ finding characters

  predicate IsComma(c: char) {
    c == ','
  }

  function FirstOf(s: string, c: char): (found: Option<nat>)
    ensures found.Some? ==> found.value < |s| && s[found.value] == c && c !in s[..found.value]
    ensures found.None? ==> c !in s
  {
    if s == "" then None
    else if s[0] == c then Some(0)
    else match FirstOf(s[1..], c)
      case Some(i) => assert s[..i + 1] == [s[0]] + s[1..][..i]; Some(i + 1)
      case None => assert s == [s[0]] + s[1..]; None
  }

  lemma {:induction false} FirstAt(front: string, c: char, back: string)
    requires c !in front
    ensures FirstOf(front + [c] + back, c) == Some(|front|)
  {
    if front == "" {
      assert "" + [c] + back == [c] + back;
    } else {
      assert front[0] in front;
      assert (front + [c] + back)[1..] == front[1..] + [c] + back;
      FirstAt(front[1..], c, back);
    }
  }

  lemma FirstAbsent(s: string, c: char)
    requires c !in s
    ensures FirstOf(s, c) == None
  {
  }

  // -------------------------------------------------------------- decimals

  function DigitChar(d: nat): (c: char)
    requires d < 10
    ensures IsDigit(c) && DigitValue(c) == d
  {
    (d + 48) as char
  }

  function DigitValue(c: char): (d: nat)
    requires IsDigit(c)
    ensures d < 10
  {
    c as nat - 48
  }

  // Decimal spelling without leading zeros, as `to_string` of an unsigned integer.
  function Decimal(n: nat): (s: string)
    ensures s != "" && forall c | c in s :: IsDigit(c)
  {
    if n < 10 then [DigitChar(n)] else Decimal(n / 10) + [DigitChar(n % 10)]
  }

  ghost predicate AllDigits(s: string) {
    forall c | c in s :: IsDigit(c)
  }

  // The number a digit string spells.
  function DecimalValue(s: string): nat
    requires forall c | c in s :: IsDigit(c)
  {
    if s == "" then 0 else DecimalValue(s[..|s| - 1]) * 10 + DigitValue(s[|s| - 1])
  }

  lemma {:induction false} DecimalValueOfDecimal(n: nat)
    ensures DecimalValue(Decimal(n)) == n
  {
    if n >= 10 {
      DecimalValueOfDecimal(n / 10);
      assert Decimal(n)[..|Decimal(n)| - 1] == Decimal(n / 10);
    } else {
      assert Decimal(n)[..0] == "";
    }
  }

  lemma DecimalInjective(a: nat, b: nat)
    ensures Decimal(a) == Decimal(b) <==> a == b
  {
    DecimalValueOfDecimal(a);
    DecimalValueOfDecimal(b);
  }
}
