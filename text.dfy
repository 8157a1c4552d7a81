/** The string operations the engine applies to raw ASCII-art text:
    JavaScript's `trimEnd` (and `replace(/\s+$/, '')`, which removes the same
    trailing run), `padEnd(w, ' ')` and `split('\n')`. */
module Text {
  import opened Util

  /** JavaScript's `\s` class: WhiteSpace and LineTerminator code points. */
  function IsSpace(c: char): (b: bool)
    ensures c <= '\U{007F}' ==> (b <==> c == ' ' || '\t' <= c <= '\r')
  {
    || c == ' ' || c == '\t' || c == '\n' || c == '\U{000B}' || c == '\U{000C}' || c == '\r'
    || c == '\U{00A0}' || c == '\U{1680}' || ('\U{2000}' <= c <= '\U{200A}')
    || c == '\U{2028}' || c == '\U{2029}' || c == '\U{202F}' || c == '\U{205F}'
    || c == '\U{3000}' || c == '\U{FEFF}'
  }

  /** `s.trimEnd()`: the longest prefix of s that does not end in white space. */
  function TrimEnd(s: string): (r: string)
    ensures r <= s
    ensures forall i :: |r| <= i < |s| ==> IsSpace(s[i])
    ensures r == [] || !IsSpace(r[|r| - 1])
  {
    if s == [] || !IsSpace(s[|s| - 1]) then s else TrimEnd(s[..|s| - 1])
  }

  function Spaces(n: nat): (r: string)
    ensures |r| == n && forall i :: 0 <= i < n ==> r[i] == ' '
  {
    seq(n, _ => ' ')
  }

  /** `s.padEnd(w, ' ')`: s, followed by spaces up to length w. */
  function PadEnd(s: string, w: nat): (r: string)
    ensures |r| == if |s| >= w then |s| else w
    ensures s <= r
    ensures forall i :: |s| <= i < |r| ==> r[i] == ' '
  {
    if |s| >= w then s else s + Spaces(w - |s|)
  }

  /** Trailing spaces are exactly what trimEnd removes. */
  lemma {:induction false} TrimEndAppendSpaces(s: string, n: nat)
    ensures TrimEnd(s + Spaces(n)) == TrimEnd(s)
  {
    if n > 0 {
      var t := s + Spaces(n);
      assert t[|t| - 1] == ' ';
      assert t[..|t| - 1] == s + Spaces(n - 1);
      TrimEndAppendSpaces(s, n - 1);
    } else {
      assert s + Spaces(0) == s;
    }
  }

  /** Padding a line and trimming it again gives the trimmed line back. */
  lemma TrimEndPadEnd(s: string, w: nat)
    ensures TrimEnd(PadEnd(s, w)) == TrimEnd(s)
  {
    if |s| < w {
      TrimEndAppendSpaces(s, w - |s|);
    }
  }

  /** The pieces of s joined again with sep. */
  function Join(parts: seq<string>, sep: char): string
    requires |parts| >= 1
  {
    if |parts| == 1 then parts[0] else parts[0] + [sep] + Join(parts[1..], sep)
  }

  /** `s.split(sep)` for a one-character separator: never empty, no piece
      holds sep, and joining the pieces with sep gives s back. */
  function Split(s: string, sep: char): (parts: seq<string>)
    ensures |parts| >= 1
    ensures forall i :: 0 <= i < |parts| ==> sep !in parts[i]
    ensures Join(parts, sep) == s
    decreases |s|
  {
    if sep !in s then [s]
    else
      var k := FirstIndex(s, sep);
      var rest := Split(s[k + 1..], sep);
      assert s == s[..k] + [sep] + s[k + 1..];
      [s[..k]] + rest
  }

  /** The number a string of decimal digits spells. */
  function DigitsValue(s: string): int {
    if s == [] then 0 else DigitsValue(s[..|s| - 1]) * 10 + (s[|s| - 1] as int - '0' as int)
  }

  /** s is the decimal numeral of n: non-empty digits whose value is n. */
  predicate IsDecimal(s: string, n: nat) {
    |s| >= 1 && (forall i :: 0 <= i < |s| ==> '0' <= s[i] <= '9') && DigitsValue(s) == n
  }

  /** `String(n)` for a non-negative integer: decimal digits that spell n,
      with no leading zero. */
  function NatToString(n: nat): (r: string)
    ensures |r| >= 1 && forall i :: 0 <= i < |r| ==> '0' <= r[i] <= '9'
    ensures DigitsValue(r) == n
    ensures |r| > 1 ==> r[0] != '0'
  {
    var d := ['0', '1', '2', '3', '4', '5', '6', '7', '8', '9'];
    assert forall k :: 0 <= k < 10 ==> d[k] as int - '0' as int == k;
    if n < 10 then
      assert [d[n]][..0] == [];
      [d[n]]
    else
      var r := NatToString(n / 10) + [d[n % 10]];
      assert r[..|r| - 1] == NatToString(n / 10);
      r
  }
}
