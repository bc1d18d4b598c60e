/** db_load: reading a record number that serves as the key. */
module Recno {
  import opened Options
  import opened Words
  import opened Text
  import opened Numbers
  import opened Loaders

  /** The ASCII codes of a text. */
  function Codes(s: string): (r: seq<byte>)
    ensures |r| == |s|
  {
    seq(|s|, k requires 0 <= k < |s| => s[k] as int % 256)
  }

  /** A record number as a key line holds it: decimal digits, or the hex of their codes. */
  function RecnoText(hex: bool, n: word): string {
    if hex then HexText(Codes(Decimal(n))) else Decimal(n)
  }

  /** The hex of a digit's code is a 3 and the digit. */
  lemma DigitCode(c: char)
    requires IsDigit(c)
    ensures "0123456789abcdef"[c as int % 256 / 16] == '3' && "0123456789abcdef"[c as int % 256 % 16] == c
  {
    assert c in DIGITS by { assert DIGITS[c as int - 48] == c; }
  }

  lemma RecnoHexAt(n: word, k: nat)
    requires k < |Decimal(n)|
    ensures |RecnoText(true, n)| == 2 * |Decimal(n)|
    ensures RecnoText(true, n)[2 * k] == '3' && RecnoText(true, n)[2 * k + 1] == Decimal(n)[k]
    ensures IsDigit(Decimal(n)[k])
  {
    hide Decimal, HexText, HexPair;
    DecimalIsRead(n, "");
    assert Decimal(n) + "" == Decimal(n);
    HexTextAt(Codes(Decimal(n)), k);
    DigitCode(Decimal(n)[k]);
  }

  lemma RecnoIsShort(hex: bool, n: word)
    ensures |Decimal(n)| <= 10 && |RecnoText(hex, n)| <= 20
  {
    hide Decimal, HexText;
    assert Power10(5) == 100000;
    assert Power10(10) == 10 * (10 * (10 * (10 * (10 * Power10(5)))));
    DecimalLength(n, 10, Power10(10));
    UnhexInvertsHexText(Codes(Decimal(n)));
  }

  /** The end of the text in a line buffer. */
  predicate Ends(c: char) {
    c == '\0' || c == '\n'
  }

  /** What the conversion makes of the text from q on: from each pair the character after the 3. */
  function Compacted(s: string, q: nat): Option<string>
    requires q <= |s|
    decreases |s| - q
  {
    if q == |s| || Ends(s[q]) then Some("")
    else if s[q] != '3' || q + 1 == |s| || Ends(s[q + 1]) then None
    else Prepend([s[q + 1]], Compacted(s, q + 2))
  }

  lemma NothingCompacted(s: string)
    requires |s| > 0
    ensures Compacted(s, 1) == Prepend("", Compacted(s, 1))
  {
    hide Compacted;
    var r := Compacted(s, 1);
    if r.Some? { assert "" + r.value == r.value; }
  }

  lemma CompactedStep(s: string, q: nat)
    requires q < |s|
    ensures Ends(s[q]) ==> Compacted(s, q) == Some("")
    ensures !Ends(s[q]) && (s[q] != '3' || q + 1 == |s| || Ends(s[q + 1])) ==> Compacted(s, q) == None
    ensures s[q] == '3' && q + 1 < |s| && !Ends(s[q + 1]) ==>
              Compacted(s, q) == Prepend([s[q + 1]], Compacted(s, q + 2))
  {
  }

  lemma PrependBoth(a: string, b: string, r: Option<string>)
    ensures Prepend(a, Prepend(b, r)) == Prepend(a + b, r)
  {
    if r.Some? { assert a + (b + r.value) == a + b + r.value; }
  }

  /** The in-place conversion of dbt_rrecno. Its write index never passes its read index. */
  method Compact(buf: array<char>) returns (ok: bool, len: nat)
    requires 2 <= buf.Length && exists k :: 1 <= k < buf.Length && buf[k] == '\0'
    modifies buf
    ensures ok <==> Compacted(old(buf[..]), 1).Some?
    ensures ok ==> 1 <= len < buf.Length && buf[len] == '\0' && Compacted(old(buf[..]), 1) == Some(buf[1..len])
    ensures buf[0] == old(buf[0])
  {
    hide Compacted;
    ghost var before := buf[..];
    ghost var last :| 1 <= last < buf.Length && buf[last] == '\0';
    var p, q := 1, 1;
    NothingCompacted(before);
    assert buf[1..p] == "";
    while buf[q] != '\0' && buf[q] != '\n'
      invariant 1 <= p <= q <= last && q == 2 * p - 1 && buf[0] == before[0]
      invariant forall k :: q <= k < buf.Length ==> buf[k] == before[k]
      invariant Compacted(before, 1) == Prepend(buf[1..p], Compacted(before, q))
      decreases last - q
    {
      CompactedStep(before, q);
      if buf[q] != '3' {
        return false, 0;
      }
      q := q + 1;
      if buf[q] == '\n' || buf[q] == '\0' {
        return false, 0;
      }
      ghost var done := buf[1..p];
      buf[p] := buf[q];
      assert buf[1..p + 1] == done + [before[q]];
      PrependBoth(done, [before[q]], Compacted(before, q + 1));
      p, q := p + 1, q + 1;
    }
    CompactedStep(before, q);
    ghost var done := buf[1..p];
    buf[p] := '\0';
    assert buf[1..p] == done == done + "";
    return true, p;
  }

  /** The buffer behind the line does not matter. */
  lemma {:induction false} CompactedPadded(line: string, buf: string, q: nat)
    requires q <= |line| < |buf| && buf[..|line|] == line && buf[|line|] == '\0'
    ensures Compacted(buf, q) == Compacted(line, q)
    decreases |line| - q
  {
    assert forall k :: 0 <= k < |line| ==> buf[..|line|][k] == buf[k];
    if q + 2 <= |line| { CompactedPadded(line, buf, q + 2); }
  }

  lemma {:induction false} CompactedHasNoEnd(s: string, q: nat)
    requires q <= |s| && Compacted(s, q).Some?
    ensures '\0' !in Compacted(s, q).value
    decreases |s| - q
  {
    if q < |s| && !Ends(s[q]) { CompactedHasNoEnd(s, q + 2); }
  }

  /** From q on s holds each of these characters after a 3, and then its end. */
  ghost predicate IsThrees(s: string, q: nat, text: string) {
    && q + 2 * |text| <= |s|
    && (q + 2 * |text| < |s| ==> s[q + 2 * |text|] == '\0' || s[q + 2 * |text|] == '\n')
    && forall k :: 0 <= k < |text| ==>
                     s[q + 2 * k] == '3' && s[q + 2 * k + 1] == text[k] && text[k] != '\0' && text[k] != '\n'
  }

  lemma ThreesStep(s: string, q: nat, text: string)
    requires text != [] && q + 2 <= |s|
    ensures IsThrees(s, q, text) <==>
            s[q] == '3' && s[q + 1] == text[0] && text[0] != '\0' && text[0] != '\n' && IsThrees(s, q + 2, text[1..])
  {
    var more := text[1..];
    if IsThrees(s, q, text) {
      assert s[q + 2 * 0] == '3';
      forall k | 0 <= k < |more|
        ensures s[q + 2 + 2 * k] == '3' && s[q + 2 + 2 * k + 1] == more[k] && more[k] != '\0' && more[k] != '\n'
      {
        assert s[q + 2 * (k + 1)] == '3' && s[q + 2 * (k + 1) + 1] == text[k + 1];
      }
    } else if s[q] == '3' && s[q + 1] == text[0] && text[0] != '\0' && text[0] != '\n' && IsThrees(s, q + 2, more) {
      forall k | 0 <= k < |text|
        ensures s[q + 2 * k] == '3' && s[q + 2 * k + 1] == text[k] && text[k] != '\0' && text[k] != '\n'
      {
        if k > 0 { assert s[q + 2 + 2 * (k - 1)] == '3' && s[q + 2 + 2 * (k - 1) + 1] == more[k - 1]; }
      }
    }
  }

  lemma NoThrees(s: string, q: nat, text: string)
    requires q <= |s|
    ensures q + 2 > |s| && text != [] ==> !IsThrees(s, q, text)
    ensures text == [] ==> (IsThrees(s, q, text) <==> q == |s| || s[q] == '\0' || s[q] == '\n')
  {
  }

  /** The conversion succeeds on exactly these texts, and gives what is behind the threes. */
  lemma {:induction false} CompactedExactly(s: string, q: nat, text: string)
    requires q <= |s|
    ensures Compacted(s, q) == Some(text) <==> IsThrees(s, q, text)
    decreases |s| - q
  {
    hide IsThrees;
    if q + 2 <= |s| {
      if text != [] {
        ThreesStep(s, q, text);
        CompactedExactly(s, q + 2, text[1..]);
        assert text == [text[0]] + text[1..];
      }
    }
    NoThrees(s, q, text);
  }

  /** A line with this record number lies ahead. */
  ghost predicate RecnoAhead(input: string, pos: nat, hex: bool, n: word) {
    var line := " " + RecnoText(hex, n) + "\n";
    pos + |line| <= |input| && input[pos..pos + |line|] == line
  }

  lemma RecnoTextIsOneLine(hex: bool, n: word, k: nat)
    requires k < |RecnoText(hex, n)|
    ensures RecnoText(hex, n)[k] != '\n' && RecnoText(hex, n)[k] != '\0'
  {
    hide Decimal, HexText;
    if hex {
      UnhexInvertsHexText(Codes(Decimal(n)));
      RecnoHexAt(n, k / 2);
      assert k == 2 * (k / 2) || k == 2 * (k / 2) + 1;
    } else {
      DecimalIsRead(n, "");
      assert Decimal(n) + "" == Decimal(n);
    }
  }

  lemma RecnoTextHasNoNewline(hex: bool, n: word)
    ensures '\n' !in " " + RecnoText(hex, n)
  {
    hide RecnoText;
    var text := " " + RecnoText(hex, n);
    forall k | 0 <= k < |text| ensures text[k] != '\n' {
      if k > 0 { RecnoTextIsOneLine(hex, n, k - 1); }
    }
  }

  /** A line that lies ahead. */
  lemma LineAhead(input: string, pos: nat, text: string)
    requires pos + |text| < |input| && input[pos..pos + |text| + 1] == text + "\n"
    requires text != "" && '\n' !in text
    ensures LineEnd(input, pos) == pos + |text| && input[pos] == text[0]
  {
    hide LineEnd;
    var line := input[pos..pos + |text| + 1];
    assert forall k :: 0 <= k < |line| ==> line[k] == input[pos + k];
    assert input[pos + |text|] == line[|text|] && input[pos + 0] == line[0];
    forall k | pos <= k < pos + |text| ensures input[k] != '\n' {
      assert input[pos + (k - pos)] == line[k - pos] == text[k - pos];
    }
    LineEndIs(input, pos, pos + |text|);
  }

  lemma RecnoLine(input: string, pos: nat, hex: bool, n: word)
    requires RecnoAhead(input, pos, hex, n)
    ensures var line := " " + RecnoText(hex, n) + "\n";
            && LineEnd(input, pos) == pos + |line| - 1 && |line| <= 22
            && input[pos] == ' ' && !IsDataEnd(input, pos)
  {
    hide RecnoText, IsDataEnd, LineEnd;
    RecnoIsShort(hex, n);
    RecnoTextHasNoNewline(hex, n);
    LineAhead(input, pos, " " + RecnoText(hex, n));
    if IsDataEnd(input, pos) { DataEndStarts(input, pos); }
  }

  /** The record number on a line, if there is one. */
  function RecnoOf(line: string, hex: bool): Option<nat>
    requires line != ""
  {
    if hex then match Compacted(line, 1) case None => None case Some(t) => GetULong(t)
    else GetULong(CString(line[1..]))
  }

  /** A number line holds the number's digits after threes. */
  lemma LineHoldsThrees(n: word)
    ensures IsThrees(" " + RecnoText(true, n) + "\n", 1, Decimal(n))
  {
    hide Decimal, RecnoText;
    var line := " " + RecnoText(true, n) + "\n";
    RecnoHexAt(n, 0);
    forall k | 0 <= k < |Decimal(n)|
      ensures line[1 + 2 * k] == '3' && line[1 + 2 * k + 1] == Decimal(n)[k]
      ensures Decimal(n)[k] != '\0' && Decimal(n)[k] != '\n'
    {
      RecnoHexAt(n, k);
      assert line[1 + 2 * k] == RecnoText(true, n)[2 * k] && line[1 + 2 * k + 1] == RecnoText(true, n)[2 * k + 1];
    }
  }

  lemma DecimalHasNoZero(n: nat)
    ensures '\0' !in Decimal(n) + "\n"
  {
    hide Decimal;
    DecimalIsRead(n, "\n");
    var s := Decimal(n) + "\n";
    forall k | 0 <= k < |s| ensures s[k] != '\0' {
      if k < |Decimal(n)| { assert IsDigit(s[k]); }
    }
  }

  lemma WholeCString(s: string)
    requires '\0' !in s
    ensures CString(s) == s
  {
  }

  /** Every 32-bit record number comes back from its line, in hex or decimal. */
  lemma RecnoIsRead(hex: bool, n: word)
    ensures RecnoOf(" " + RecnoText(hex, n) + "\n", hex) == Some(n)
  {
    hide Decimal, GetULong, CString, IsThrees, Compacted;
    var line := " " + RecnoText(hex, n) + "\n";
    if hex {
      hide RecnoText;
      LineHoldsThrees(n);
      CompactedExactly(line, 1, Decimal(n));
      assert Decimal(n) == Decimal(n) + "";
      DecimalGetLong(n, "");
    } else {
      DecimalGetLong(n, "\n");
      DecimalHasNoZero(n);
      assert line[1..] == Decimal(n) + "\n";
      WholeCString(Decimal(n) + "\n");
    }
  }

  /** A string in a buffer: what is behind its zero does not matter. */
  lemma CStringPadded(s: string, buf: string)
    requires |s| < |buf| && buf[..|s|] == s && buf[|s|] == '\0'
    ensures CString(buf) == CString(s)
  {
    hide Find;
    var n := Find(s, '\0', 0);
    assert forall k :: 0 <= k < |s| ==> buf[..|s|][k] == buf[k];
    FindIs(buf, '\0', 0, n);
    assert buf[..n] == buf[..|s|][..n];
  }

  /** The conversion and __db_getulong on the line buffer of dbt_rrecno. */
  method ParseRecno(line: string, hex: bool) returns (value: Option<nat>)
    requires 1 <= |line| <= 31
    ensures value == RecnoOf(line, hex)
  {
    hide GetULong, CString, Compacted;
    var buf := new char[32](k => '\0');
    forall k | 0 <= k < |line| {
      buf[k] := line[k];
    }
    assert buf[..|line|] == line && buf[|line|] == '\0';
    if hex {
      CompactedPadded(line, buf[..], 1);
      var ok, len := Compact(buf);
      if !ok {
        return None;
      }
      CompactedHasNoEnd(line, 1);
      ghost var t := buf[1..len];
      assert buf[1..][..len - 1] == t;
      CStringPadded(t, buf[1..]);
      WholeCString(t);
    } else {
      assert buf[1..][..|line| - 1] == line[1..];
      CStringPadded(line[1..], buf[1..]);
    }
    value := GetULong(CString(buf[1..]));
  }

  /** How far a read of up to 31 characters of a line goes. */
  function Stop(input: string, pos: nat): (r: nat)
    requires pos <= |input|
    ensures pos <= r <= |input|
  {
    Min(pos + 31, Min(LineEnd(input, pos) + 1, |input|))
  }

  lemma DataEndIsWhole(input: string, at: nat)
    requires IsDataEnd(input, at)
    ensures at + |DATA_END| <= |input| && LineEnd(input, at) == at + |DATA_END| - 1 && input[at..at + |DATA_END|] == DATA_END
  {
    DataEndStarts(input, at);
    DataEndIsRead(input, at);
  }

  /** The read takes in a whole record number line, or the end of the data. */
  lemma StopIsBehind(input: string, pos: nat, hex: bool, n: word)
    requires pos <= |input|
    ensures RecnoAhead(input, pos, hex, n) ==>
              var line := input[pos..Stop(input, pos)];
              && Stop(input, pos) == LineEnd(input, pos) + 1
              && line != "" && line != DATA_END && line[0] == ' ' && RecnoOf(line, hex) == Some(n)
    ensures IsDataEnd(input, pos) ==> input[pos..Stop(input, pos)] == DATA_END
  {
    hide LineEnd, IsDataEnd, RecnoText, RecnoOf;
    if IsDataEnd(input, pos) { DataEndIsWhole(input, pos); }
    if RecnoAhead(input, pos, hex, n) {
      RecnoLine(input, pos, hex, n);
      RecnoIsRead(hex, n);
      assert input[pos..Stop(input, pos)] == " " + RecnoText(hex, n) + "\n";
    }
  }

  /**
   * dbt_rrecno, which reads at most 31 characters of its line. A line with any 32-bit record number is
   * taken as a whole and gives the number.
   */
  method DbtRrecno(l: Loader, hex: bool) returns (ret: int, recno: Option<word>)
    requires l.Valid()
    modifies l
    ensures l.Valid() && l.version == old(l.version) && l.lineno == old(l.lineno) + 1
    ensures l.pos == Stop(l.input, old(l.pos))
    ensures var line := l.input[old(l.pos)..l.pos];
            if line == "" then ret == 0 && recno == None && l.endofile && l.endodata
            else if line == "DATA=END\n" then ret == 0 && recno == None && l.endodata && l.endofile == old(l.endofile)
            else
              && l.endodata == old(l.endodata) && l.endofile == old(l.endofile)
              && if line[0] != ' ' then ret == 1 && recno == None
                 else match RecnoOf(line, hex)
                   case None => ret == 1 && recno == None
                   case Some(v) => ret == 0 && recno == Some(v % WORD_RANGE)
    ensures forall n: word :: RecnoAhead(l.input, old(l.pos), hex, n) ==>
              ret == 0 && recno == Some(n) && l.pos == LineEnd(l.input, old(l.pos)) + 1 && l.endodata == old(l.endodata)
    ensures old(l.pos) + 9 <= |l.input| && l.input[old(l.pos)..old(l.pos) + 9] == "DATA=END\n" ==>
              ret == 0 && recno == None && l.endodata && l.endofile == old(l.endofile) && l.pos == old(l.pos) + 9
  {
    hide LineEnd, IsDataEnd, RecnoAhead, RecnoOf;
    ghost var from := l.pos;
    forall n: word {
      StopIsBehind(l.input, from, hex, n);
    }
    StopIsBehind(l.input, from, hex, 0);
    DataEndIsLiteral(l.input, from);
    l.lineno := l.lineno + 1;
    var line := l.Fgets(32);
    if line == "" {
      l.endofile, l.endodata := true, true;
      return 0, None;
    }
    if line == DATA_END {
      l.endodata := true;
      return 0, None;
    }
    if line[0] != ' ' {
      return 1, None;
    }
    var value := ParseRecno(line, hex);
    if value == None {
      return 1, None;
    }
    return 0, Some(value.value % WORD_RANGE);
  }
}
