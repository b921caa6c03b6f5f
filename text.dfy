/** Text helpers shared by the matchers and the renderer: the line separator,
    the indentation unit, ASCII upper-casing and list joining. */
module Text {

  /** `System.lineSeparator()`, fixed to the Unix separator. */
  const LineSeparator: string := "\n"

  /** The indentation unit written once per nesting level. */
  const IndentUnit: string := "    "

  /** `Character.toUpperCase` restricted to ASCII letters. */
  function UpperCase(c: char): (u: char)
    ensures 'a' <= c <= 'z' ==> u as int == c as int - 32
    ensures !('a' <= c <= 'z') ==> u == c
  {
    if 'a' <= c <= 'z' then (c as int - 32) as char else c
  }

  /** `level` copies of the indentation unit. */
  function Indent(level: nat): string
  {
    if level == 0 then "" else Indent(level - 1) + IndentUnit
  }

  /** Indentation at `level` is exactly 4 * level spaces. */
  lemma {:induction false} IndentIsSpaces(level: nat)
    ensures |Indent(level)| == 4 * level
    ensures forall k :: 0 <= k < |Indent(level)| ==> Indent(level)[k] == ' '
  {
    if level > 0 {
      IndentIsSpaces(level - 1);
    }
  }

  /** What a multi-line renderer at `level` writes for a new line. */
  function Newline(level: nat): (r: string)
    ensures |r| == 1 + 4 * level
    ensures r[0] == '\n'
    ensures forall k :: 1 <= k < |r| ==> r[k] == ' '
  {
    IndentIsSpaces(level);
    LineSeparator + Indent(level)
  }

  /** Regrouping a concatenation, stated once so that long proofs about
      text need not rediscover it. */
  lemma ConcatAssoc(a: string, b: string, c: string)
    ensures a + (b + c) == (a + b) + c
  {
  }

  /** The first part of a concatenation is its prefix. */
  lemma PrefixOfConcat(a: string, b: string)
    ensures (a + b)[..|a|] == a
  {
  }

  /** The parts separated by `separator`: none before the first part and none
      after the last. */
  function Join(separator: string, parts: seq<string>): string
  {
    if |parts| == 0 then ""
    else if |parts| == 1 then parts[0]
    else parts[0] + separator + Join(separator, parts[1..])
  }

  /** Appending one more part adds exactly one separator, between the old
      parts and the new one. */
  lemma {:induction false} JoinSnoc(separator: string, parts: seq<string>, last: string)
    requires |parts| > 0
    ensures Join(separator, parts + [last]) == Join(separator, parts) + separator + last
  {
    if |parts| == 1 {
      assert (parts + [last])[1..] == [last];
    } else {
      assert (parts + [last])[1..] == parts[1..] + [last];
      JoinSnoc(separator, parts[1..], last);
    }
  }

  /** `JoinSnoc` on prefixes, after some leading text: joining one part
      more of `parts` adds the separator and that part at the end. */
  lemma JoinPrefixStep(lead: string, separator: string, parts: seq<string>, i: nat)
    requires 1 <= i < |parts|
    ensures lead + Join(separator, parts[..i + 1]) == lead + Join(separator, parts[..i]) + separator + parts[i]
  {
    assert parts[..i + 1] == parts[..i] + [parts[i]];
    JoinSnoc(separator, parts[..i], parts[i]);
  }

  /** Decimal text of an integer, as `String.valueOf(int)` writes it. */
  function IntText(i: int): (r: string)
    ensures |r| > 0
    decreases if i < 0 then -i + 1 else i
  {
    if i < 0 then "-" + IntText(-i)
    else if i < 10 then [DigitChar(i)]
    else IntText(i / 10) + [DigitChar(i % 10)]
  }

  function DigitChar(d: nat): (c: char)
    requires d < 10
    ensures '0' <= c <= '9'
  {
    ('0' as int + d) as char
  }
}
