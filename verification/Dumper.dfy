/** db_dump185: what it writes to its output. */
module Dumpers {
  import opened Words
  import opened Text
  import opened Numbers

  // ---------- the header ----------

  /** A 32-bit field, of either signedness. */
  type field = v: int | -0x8000_0000 <= v < 0x1_0000_0000

  /** What the header of the dump shows of an old database. */
  datatype Old =
    | OldBtree(lorder: field, psize: word, noDups: bool)
    | OldHash(ffactor: field, lorder: field, bsize: field)

  /** printf("%lu", (u_long)v): a negative field is sign-extended. */
  function LongText(v: field): string {
    Decimal(if v < 0 then v + ULONG_RANGE else v)
  }

  function JoinLines(lines: seq<string>): string {
    if lines == [] then "" else lines[0] + "\n" + JoinLines(lines[1..])
  }

  lemma {:induction false} JoinLinesConcat(a: seq<string>, b: seq<string>)
    ensures JoinLines(a + b) == JoinLines(a) + JoinLines(b)
  {
    if a == [] {
      assert a + b == b;
    } else {
      assert (a + b)[1..] == a[1..] + b;
      JoinLinesConcat(a[1..], b);
    }
  }

  lemma JoinLinesAppend(lines: seq<string>, line: string)
    ensures JoinLines(lines + [line]) == JoinLines(lines) + (line + "\n")
  {
    JoinLinesConcat(lines, [line]);
    assert JoinLines([line]) == line + "\n" + "";
  }

  /** printf("%s=%s", name, value) */
  function Line(name: string, value: string): string {
    name + "=" + value
  }

  function FormatName(escaped: bool): string {
    if escaped then "print" else "bytevalue"
  }

  function LorderLines(lorder: field): seq<string> {
    if lorder != 0 then [Line("db_lorder", LongText(lorder))] else []
  }

  /** The lines before the last. */
  function HeaderLines(d: Old, escaped: bool): seq<string> {
    match d
    case OldBtree(lorder, psize, noDups) =>
      [Line("format", FormatName(escaped))] + [Line("type", "btree")] + LorderLines(lorder)
      + [Line("db_pagesize", LongText(psize))] + if noDups then [] else [Line("duplicates", "1")]
    case OldHash(ffactor, lorder, bsize) =>
      [Line("format", FormatName(escaped))] + [Line("type", "hash")] + [Line("h_ffactor", LongText(ffactor))]
      + LorderLines(lorder) + [Line("db_pagesize", LongText(bsize))]
  }

  function HeaderText(d: Old, escaped: bool): string {
    JoinLines(HeaderLines(d, escaped) + [Line("HEADER", "END")])
  }

  // ---------- the records ----------

  /** The text of one item, in either of the two formats. */
  function ItemText(escaped: bool, isprint: byte -> bool, bytes: seq<byte>): string {
    if escaped then PrintText(isprint, bytes) else HexText(bytes)
  }

  /** Items one to a line, each after the same lead. */
  function BodyText(lead: string, escaped: bool, isprint: byte -> bool, items: seq<seq<byte>>): string {
    if items == [] then ""
    else lead + ItemText(escaped, isprint, items[0]) + "\n" + BodyText(lead, escaped, isprint, items[1..])
  }

  /** Keys and data items in turn. */
  function Interleave(pairs: seq<(seq<byte>, seq<byte>)>): seq<seq<byte>> {
    if pairs == [] then [] else [pairs[0].0, pairs[0].1] + Interleave(pairs[1..])
  }

  lemma {:induction false} BodyTextConcat(lead: string, escaped: bool, isprint: byte -> bool, a: seq<seq<byte>>, b: seq<seq<byte>>)
    ensures BodyText(lead, escaped, isprint, a + b) == BodyText(lead, escaped, isprint, a) + BodyText(lead, escaped, isprint, b)
  {
    hide ItemText;
    if a == [] {
      assert a + b == b;
    } else {
      assert (a + b)[1..] == a[1..] + b;
      BodyTextConcat(lead, escaped, isprint, a[1..], b);
    }
  }

  lemma {:induction false} InterleaveAppend(pairs: seq<(seq<byte>, seq<byte>)>, p: (seq<byte>, seq<byte>))
    ensures Interleave(pairs + [p]) == Interleave(pairs) + [p.0, p.1]
  {
    if pairs == [] {
      assert pairs + [p] == [p] && [p][1..] == [];
    } else {
      assert (pairs + [p])[1..] == pairs[1..] + [p];
      InterleaveAppend(pairs[1..], p);
    }
  }

  lemma NoText(isprint: byte -> bool)
    ensures PrintText(isprint, []) == ""
  {
  }

  lemma NoLines()
    ensures JoinLines([]) == ""
  {
  }

  lemma NoRecords(escaped: bool, isprint: byte -> bool)
    ensures BodyText("", escaped, isprint, Interleave([])) == ""
  {
  }

  lemma TwoLines(escaped: bool, isprint: byte -> bool, a: seq<byte>, b: seq<byte>)
    ensures BodyText("", escaped, isprint, [a, b])
            == ItemText(escaped, isprint, a) + "\n" + ItemText(escaped, isprint, b) + "\n"
  {
    hide ItemText;
    assert [a, b][1..] == [b] && [b][1..] == [];
    assert BodyText("", escaped, isprint, [b]) == "" + ItemText(escaped, isprint, b) + "\n" + "";
  }

  lemma NextRecord(escaped: bool, isprint: byte -> bool, pairs: seq<(seq<byte>, seq<byte>)>, p: (seq<byte>, seq<byte>))
    ensures BodyText("", escaped, isprint, Interleave(pairs + [p]))
            == BodyText("", escaped, isprint, Interleave(pairs))
               + (ItemText(escaped, isprint, p.0) + "\n" + ItemText(escaped, isprint, p.1) + "\n")
  {
    hide ItemText, BodyText, Interleave;
    InterleaveAppend(pairs, p);
    BodyTextConcat("", escaped, isprint, Interleave(pairs), [p.0, p.1]);
    TwoLines(escaped, isprint, p.0, p.1);
  }

  class Dumper {
    var out: string

    constructor ()
      ensures out == ""
    {
      out := "";
    }

    /** printf("%c", c) */
    method PutChar(c: char)
      modifies this
      ensures out == old(out) + [c]
    {
      out := out + [c];
    }

    /** printf("%s=%s\n", name, value), after these lines */
    method PutLine(name: string, value: string, ghost start: string, ghost lines: seq<string>)
      requires out == start + JoinLines(lines)
      modifies this
      ensures out == start + JoinLines(lines + [Line(name, value)])
    {
      hide JoinLines;
      JoinLinesAppend(lines, Line(name, value));
      out := out + name + "=" + value + "\n";
    }

    /** db_btree */
    method DbBtree(lorder: field, psize: word, noDups: bool, escaped: bool)
      modifies this
      ensures out == old(out) + HeaderText(OldBtree(lorder, psize, noDups), escaped)
    {
      hide LongText, JoinLines, Line, FormatName;
      NoLines();
      ghost var start, lines := out, [];
      assert out == start + "";
      PutLine("format", FormatName(escaped), start, lines);
      lines := lines + [Line("format", FormatName(escaped))];
      PutLine("type", "btree", start, lines);
      lines := lines + [Line("type", "btree")];
      if lorder != 0 {
        PutLine("db_lorder", LongText(lorder), start, lines);
      }
      assert lines + [] == lines;
      lines := lines + LorderLines(lorder);
      PutLine("db_pagesize", LongText(psize), start, lines);
      lines := lines + [Line("db_pagesize", LongText(psize))];
      if !noDups {
        PutLine("duplicates", "1", start, lines);
        lines := lines + [Line("duplicates", "1")];
      }
      PutLine("HEADER", "END", start, lines);
      assert lines == HeaderLines(OldBtree(lorder, psize, noDups), escaped);
    }

    /** db_hash */
    method DbHash(ffactor: field, lorder: field, bsize: field, escaped: bool)
      modifies this
      ensures out == old(out) + HeaderText(OldHash(ffactor, lorder, bsize), escaped)
    {
      hide LongText, JoinLines, Line, FormatName;
      NoLines();
      ghost var start, lines := out, [];
      assert out == start + "";
      PutLine("format", FormatName(escaped), start, lines);
      lines := lines + [Line("format", FormatName(escaped))];
      PutLine("type", "hash", start, lines);
      lines := lines + [Line("type", "hash")];
      PutLine("h_ffactor", LongText(ffactor), start, lines);
      lines := lines + [Line("h_ffactor", LongText(ffactor))];
      if lorder != 0 {
        PutLine("db_lorder", LongText(lorder), start, lines);
      }
      assert lines + [] == lines;
      lines := lines + LorderLines(lorder);
      PutLine("db_pagesize", LongText(bsize), start, lines);
      lines := lines + [Line("db_pagesize", LongText(bsize))];
      PutLine("HEADER", "END", start, lines);
      assert lines == HeaderLines(OldHash(ffactor, lorder, bsize), escaped);
    }

    method DumpHeader(d: Old, escaped: bool)
      modifies this
      ensures out == old(out) + HeaderText(d, escaped)
    {
      hide HeaderText;
      match d
      case OldBtree(lorder, psize, noDups) => DbBtree(lorder, psize, noDups, escaped);
      case OldHash(ffactor, lorder, bsize) => DbHash(ffactor, lorder, bsize, escaped);
    }

    /** dbt_dump */
    method DbtDump(bytes: seq<byte>)
      modifies this
      ensures out == old(out) + HexText(bytes) + "\n"
    {
      for p := 0 to |bytes|
        invariant out == old(out) + HexText(bytes[..p])
      {
        PutChar(HEX[bytes[p] / 16]);
        PutChar(HEX[bytes[p] % 16]);
        assert bytes[..p + 1][..p] == bytes[..p];
      }
      assert bytes[..|bytes|] == bytes;
      PutChar('\n');
    }

    /** dbt_print */
    method DbtPrint(isprint: byte -> bool, bytes: seq<byte>)
      modifies this
      ensures out == old(out) + PrintText(isprint, bytes) + "\n"
    {
      hide PrintText;
      NoText(isprint);
      for p := 0 to |bytes|
        invariant out == old(out) + PrintText(isprint, bytes[..p])
      {
        var b := bytes[p];
        PrintTextConcat(isprint, bytes[..p], [b]);
        OneBytePrinted(isprint, b);
        assert bytes[..p + 1] == bytes[..p] + [b];
        if isprint(b) {
          if b as char == '\\' {
            PutChar('\\');
          }
          PutChar(b as char);
        } else {
          PutChar('\\');
          PutChar(HEX[b / 16]);
          PutChar(HEX[b % 16]);
        }
      }
      assert bytes[..|bytes|] == bytes;
      PutChar('\n');
    }

    /** One turn of the loops of main. */
    method DumpPair(escaped: bool, isprint: byte -> bool, key: seq<byte>, value: seq<byte>)
      modifies this
      ensures out == old(out) + (ItemText(escaped, isprint, key) + "\n" + ItemText(escaped, isprint, value) + "\n")
    {
      hide HexText, PrintText;
      if escaped {
        DbtPrint(isprint, key);
        DbtPrint(isprint, value);
      } else {
        DbtDump(key);
        DbtDump(value);
      }
    }

    /** The loop of main over the records. */
    method DumpRecords(escaped: bool, isprint: byte -> bool, pairs: seq<(seq<byte>, seq<byte>)>)
      modifies this
      ensures out == old(out) + BodyText("", escaped, isprint, Interleave(pairs))
    {
      hide ItemText, BodyText, Interleave;
      NoRecords(escaped, isprint);
      for n := 0 to |pairs|
        invariant out == old(out) + BodyText("", escaped, isprint, Interleave(pairs[..n]))
      {
        assert pairs[..n + 1] == pairs[..n] + [pairs[n]];
        NextRecord(escaped, isprint, pairs[..n], pairs[n]);
        DumpPair(escaped, isprint, pairs[n].0, pairs[n].1);
      }
      assert pairs[..|pairs|] == pairs;
    }
  }
}
