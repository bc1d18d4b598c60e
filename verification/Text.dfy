/** The dump text: bytes as hex pairs or as escaped printable characters, and back. */
module Text {
  import opened Options
  import opened Words

  // ---------- C strings ----------

  /** Position of the first c at or after i, or the end of s. */
  function Find(s: string, c: char, i: nat): (r: nat)
    requires i <= |s|
    ensures i <= r <= |s|
    ensures r < |s| ==> s[r] == c
    ensures forall k :: i <= k < r ==> s[k] != c
    decreases |s| - i
  {
    if i == |s| || s[i] == c then i else Find(s, c, i + 1)
  }

  lemma {:induction false} FindIs(s: string, c: char, i: nat, end: nat)
    requires i <= end <= |s| && (end < |s| ==> s[end] == c)
    requires forall k :: i <= k < end ==> s[k] != c
    ensures Find(s, c, i) == end
    decreases end - i
  {
    if i < end { FindIs(s, c, i + 1, end); }
  }

  /** The characters before the first zero. */
  function CString(s: string): string {
    s[..Find(s, '\0', 0)]
  }

  // ---------- hex digits ----------

  const HEX := "0123456789abcdef"

  function HexPair(b: byte): (r: string)
    ensures |r| == 2
  {
    [HEX[b / 16], HEX[b % 16]]
  }

  /** One operand of DIGITIZE: everything that is no other digit counts as 15. */
  function DigitValue(c: char): (v: nat)
    ensures v < 16
  {
    match c
    case '0' => 0 case '1' => 1 case '2' => 2 case '3' => 3 case '4' => 4
    case '5' => 5 case '6' => 6 case '7' => 7 case '8' => 8 case '9' => 9
    case 'a' => 10 case 'b' => 11 case 'c' => 12 case 'd' => 13 case 'e' => 14
    case _ => 15
  }

  /** DIGITIZE refuses these. A char is signed, so codes from 128 on compare below 'f'. */
  predicate TooBig(c: char) {
    'f' < c && c as int < 128
  }

  function PairValue(c: char, d: char): byte {
    DigitValue(c) * 16 + DigitValue(d)
  }

  lemma HexDigitDecodes(v: nat)
    requires v < 16
    ensures DigitValue(HEX[v]) == v && !TooBig(HEX[v]) && HEX[v] != '\n' && HEX[v] != '\\' && HEX[v] != ' '
  {
  }

  lemma HexPairDecodes(b: byte)
    ensures DigitValue(HexPair(b)[0]) == b / 16 && DigitValue(HexPair(b)[1]) == b % 16
    ensures PairValue(HexPair(b)[0], HexPair(b)[1]) == b
    ensures !TooBig(HexPair(b)[0]) && !TooBig(HexPair(b)[1])
    ensures HexPair(b)[0] != '\n' && HexPair(b)[1] != '\n' && HexPair(b)[0] != '\\'
  {
    HexDigitDecodes(b / 16);
    HexDigitDecodes(b % 16);
  }

  /** dbt_dump, without the newline */
  function HexText(bytes: seq<byte>): string {
    if bytes == [] then "" else HexText(bytes[..|bytes| - 1]) + HexPair(bytes[|bytes| - 1])
  }

  /** A line that the hex reader takes: complete pairs, no newline, no digit that is refused. */
  predicate IsHex(s: string) {
    |s| % 2 == 0 && forall k :: 0 <= k < |s| ==> s[k] != '\n' && !TooBig(s[k])
  }

  /** The bytes of the first n pairs. */
  function Unhex(s: string, n: nat): (r: seq<byte>)
    requires 2 * n <= |s|
    ensures |r| == n
  {
    if n == 0 then [] else Unhex(s, n - 1) + [PairValue(s[2 * n - 2], s[2 * n - 1])]
  }

  lemma UnhexStep(s: string, n: nat)
    requires 2 * n + 2 <= |s|
    ensures Unhex(s, n + 1) == Unhex(s, n) + [PairValue(s[2 * n], s[2 * n + 1])]
  {
  }

  lemma UnhexNone(s: string)
    ensures Unhex(s, 0) == []
  {
  }

  lemma {:induction false} UnhexPrefix(s: string, t: string, n: nat)
    requires 2 * n <= |s| <= |t| && t[..|s|] == s
    ensures Unhex(s, n) == Unhex(t, n)
  {
    if n > 0 {
      UnhexPrefix(s, t, n - 1);
      assert forall k :: 0 <= k < |s| ==> t[..|s|][k] == t[k];
    }
  }

  /** Hex text is read back as the bytes it was written from. */
  lemma {:induction false} UnhexInvertsHexText(bytes: seq<byte>)
    ensures IsHex(HexText(bytes)) && |HexText(bytes)| == 2 * |bytes|
    ensures Unhex(HexText(bytes), |bytes|) == bytes
  {
    hide HexPair, PairValue, TooBig;
    if bytes != [] {
      var front, last := bytes[..|bytes| - 1], bytes[|bytes| - 1];
      UnhexInvertsHexText(front);
      HexPairDecodes(last);
      UnhexPrefix(HexText(front), HexText(bytes), |front|);
    }
  }

  // ---------- escapes ----------

  /** Every backslash is followed by another one or by two characters. */
  predicate Complete(s: string) {
    if s == "" then true
    else if s[0] != '\\' then Complete(s[1..])
    else if |s| < 2 then false
    else if s[1] == '\\' then Complete(s[2..])
    else |s| >= 3 && Complete(s[3..])
  }

  function Prepend<T>(a: seq<T>, r: Option<seq<T>>): Option<seq<T>> {
    if r.None? then None else Some(a + r.value)
  }

  /** The bytes that escaped text stands for, or None if an escape has a digit that is refused. */
  function Unescape(s: string): Option<seq<byte>>
    requires Complete(s)
  {
    if s == "" then Some([])
    else if s[0] != '\\' then Prepend([s[0] as int % 256], Unescape(s[1..]))
    else if s[1] == '\\' then Prepend(['\\' as int % 256], Unescape(s[2..]))
    else if TooBig(s[1]) || TooBig(s[2]) then None
    else Prepend([PairValue(s[1], s[2])], Unescape(s[3..]))
  }

  /** One byte as dbt_print writes it, for this notion of printable. */
  function PrintByte(isprint: byte -> bool, b: byte): string {
    if !isprint(b) then "\\" + HexPair(b)
    else if b as char == '\\' then "\\\\"
    else [b as char]
  }

  /** dbt_print, without the newline */
  function PrintText(isprint: byte -> bool, bytes: seq<byte>): string {
    if bytes == [] then "" else PrintByte(isprint, bytes[0]) + PrintText(isprint, bytes[1..])
  }

  /** Escaped text is read back as the bytes it was written from, whatever counts as printable. */
  lemma {:induction false} UnescapeInvertsPrintText(isprint: byte -> bool, bytes: seq<byte>)
    ensures Complete(PrintText(isprint, bytes)) && Unescape(PrintText(isprint, bytes)) == Some(bytes)
  {
    if bytes != [] {
      var b, rest := bytes[0], PrintText(isprint, bytes[1..]);
      UnescapeInvertsPrintText(isprint, bytes[1..]);
      HexPairDecodes(b);
      var s := PrintText(isprint, bytes);
      assert s == PrintByte(isprint, b) + rest;
      if !isprint(b) {
        assert s[3..] == rest;
      } else if b as char == '\\' {
        assert s[2..] == rest;
      } else {
        assert s[1..] == rest;
      }
      assert bytes == [b] + bytes[1..];
    }
  }

  lemma NewlineInByte(isprint: byte -> bool, b: byte)
    ensures '\n' in PrintByte(isprint, b) <==> isprint(10) && b == 10
  {
    HexPairDecodes(b);
    assert b as char == '\n' <==> b == 10;
  }

  /** The text of an item is one line exactly if the item has no printable newline. */
  lemma {:induction false} PrintTextIsOneLine(isprint: byte -> bool, bytes: seq<byte>)
    ensures '\n' in PrintText(isprint, bytes) <==> isprint(10) && 10 in bytes
  {
    if bytes != [] {
      var b, rest := bytes[0], PrintText(isprint, bytes[1..]);
      PrintTextIsOneLine(isprint, bytes[1..]);
      HexPairDecodes(b);
      assert bytes == [b] + bytes[1..];
      assert b as char == '\n' <==> b == 10;
      NewlineInByte(isprint, b);
    }
  }

  /** The decoded bytes are never more than the characters. */
  lemma {:induction false} UnescapeShrinks(s: string)
    requires Complete(s) && Unescape(s).Some?
    ensures |Unescape(s).value| <= |s|
  {
    if s != "" {
      if s[0] != '\\' {
        UnescapeShrinks(s[1..]);
      } else if s[1] == '\\' {
        UnescapeShrinks(s[2..]);
      } else {
        UnescapeShrinks(s[3..]);
      }
    }
  }

  // ---------- what the text looks like ----------

  lemma HexPairDigits(b: byte)
    ensures HexPair(b)[0] == "0123456789abcdef"[b / 16] && HexPair(b)[1] == "0123456789abcdef"[b % 16]
  {
  }

  lemma HexTextStep(bytes: seq<byte>)
    requires bytes != []
    ensures HexText(bytes) == HexText(bytes[..|bytes| - 1]) + HexPair(bytes[|bytes| - 1])
  {
  }

  /** Each byte is two digits, the high one first. */
  lemma {:induction false} HexTextAt(bytes: seq<byte>, k: nat)
    requires k < |bytes|
    ensures |HexText(bytes)| == 2 * |bytes|
    ensures HexText(bytes)[2 * k] == "0123456789abcdef"[bytes[k] / 16]
    ensures HexText(bytes)[2 * k + 1] == "0123456789abcdef"[bytes[k] % 16]
  {
    hide HexText, HexPair;
    var front := bytes[..|bytes| - 1];
    HexTextStep(bytes);
    UnhexInvertsHexText(front);
    if k < |front| { HexTextAt(front, k); } else { HexPairDigits(bytes[k]); }
  }

  /** A digit counts as its place in the row of digits, and any other character as 15. */
  lemma DigitIsItsPlace(c: char, v: nat)
    requires v < 16
    ensures c == "0123456789abcdef"[v] ==> DigitValue(c) == v
    ensures c !in "0123456789abcde" ==> DigitValue(c) == 15
    ensures TooBig(c) <==> 102 < c as int < 128
  {
  }

  /** Bytes as characters */
  function AsChars(bytes: seq<byte>): string {
    seq(|bytes|, k requires 0 <= k < |bytes| => bytes[k] as char)
  }

  /** Bytes that are printed with a backslash in front. */
  function Backslashes(isprint: byte -> bool, bytes: seq<byte>): nat {
    if bytes == [] then 0 else (if isprint(bytes[0]) && bytes[0] == 92 then 1 else 0) + Backslashes(isprint, bytes[1..])
  }

  function Unprintable(isprint: byte -> bool, bytes: seq<byte>): nat {
    if bytes == [] then 0 else (if isprint(bytes[0]) then 0 else 1) + Unprintable(isprint, bytes[1..])
  }

  lemma BackslashIs92(b: byte)
    ensures b as char == '\\' <==> b == 92
  {
    assert '\\' as int == 92;
  }

  /** A printable backslash takes one character more than itself, an unprintable byte two. */
  lemma {:induction false} PrintTextLength(isprint: byte -> bool, bytes: seq<byte>)
    ensures |PrintText(isprint, bytes)| == |bytes| + Backslashes(isprint, bytes) + 2 * Unprintable(isprint, bytes)
  {
    if bytes != [] {
      PrintTextLength(isprint, bytes[1..]);
      BackslashIs92(bytes[0]);
    }
  }

  /** Where the text of the k-th byte starts. */
  function PieceAt(isprint: byte -> bool, bytes: seq<byte>, k: nat): nat
    requires k <= |bytes|
  {
    k + Backslashes(isprint, bytes[..k]) + 2 * Unprintable(isprint, bytes[..k])
  }

  lemma {:induction false} PrintTextConcat(isprint: byte -> bool, a: seq<byte>, b: seq<byte>)
    ensures PrintText(isprint, a + b) == PrintText(isprint, a) + PrintText(isprint, b)
  {
    hide PrintByte;
    if a == [] {
      assert a + b == b;
    } else {
      assert (a + b)[1..] == a[1..] + b;
      PrintTextConcat(isprint, a[1..], b);
    }
  }

  lemma OneBytePrinted(isprint: byte -> bool, b: byte)
    ensures PrintText(isprint, [b]) == PrintByte(isprint, b)
  {
    assert [b][1..] == [];
    assert PrintByte(isprint, b) + "" == PrintByte(isprint, b);
  }

  /**
   * The text of each byte: itself if it is printable and no backslash, two backslashes if it is a printable
   * one, and a backslash with two digits if it is not printable.
   */
  lemma PrintTextAt(isprint: byte -> bool, bytes: seq<byte>, k: nat)
    requires k < |bytes|
    ensures var text, b, at := PrintText(isprint, bytes), bytes[k], PieceAt(isprint, bytes, k);
            if isprint(b) && b != 92 then at < |text| && text[at] == b as char
            else if isprint(b) then at + 2 <= |text| && text[at] == '\\' && text[at + 1] == '\\'
            else at + 3 <= |text| && text[at] == '\\'
                 && text[at + 1] == "0123456789abcdef"[b / 16] && text[at + 2] == "0123456789abcdef"[b % 16]
  {
    hide PrintText;
    var front, b, rest := bytes[..k], bytes[k], bytes[k + 1..];
    assert bytes == front + ([b] + rest);
    PrintTextConcat(isprint, front, [b] + rest);
    PrintTextConcat(isprint, [b], rest);
    PrintTextLength(isprint, front);
    OneBytePrinted(isprint, b);
    BackslashIs92(b);
  }

  lemma {:induction false} NothingEscaped(isprint: byte -> bool, bytes: seq<byte>)
    ensures Backslashes(isprint, bytes) == 0 && Unprintable(isprint, bytes) == 0
            <==> forall k :: 0 <= k < |bytes| ==> isprint(bytes[k]) && bytes[k] != 92
  {
    if bytes != [] {
      var rest := bytes[1..];
      NothingEscaped(isprint, rest);
      assert forall k :: 0 <= k < |rest| ==> rest[k] == bytes[k + 1];
      assert forall k :: 0 < k < |bytes| ==> bytes[k] == rest[k - 1];
    }
  }

  lemma NothingEscapedBefore(isprint: byte -> bool, bytes: seq<byte>, k: nat)
    requires k <= |bytes| && forall j :: 0 <= j < |bytes| ==> isprint(bytes[j]) && bytes[j] != 92
    ensures PieceAt(isprint, bytes, k) == k
  {
    NothingEscaped(isprint, bytes[..k]);
  }

  /** The text is the bytes themselves exactly if all are printable and none is a backslash. */
  lemma PrintTextIsPlain(isprint: byte -> bool, bytes: seq<byte>)
    ensures PrintText(isprint, bytes) == AsChars(bytes)
            <==> forall k :: 0 <= k < |bytes| ==> isprint(bytes[k]) && bytes[k] != 92
  {
    hide PrintText, Backslashes, Unprintable, PieceAt;
    PrintTextLength(isprint, bytes);
    NothingEscaped(isprint, bytes);
    if forall k :: 0 <= k < |bytes| ==> isprint(bytes[k]) && bytes[k] != 92 {
      forall k | 0 <= k < |bytes| ensures PrintText(isprint, bytes)[k] == AsChars(bytes)[k] {
        PrintTextAt(isprint, bytes, k);
        NothingEscapedBefore(isprint, bytes, k);
      }
    }
  }
}
