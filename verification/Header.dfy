/** db_load: what the lines of a dump's header mean, read from the input or from the saved copy. */
module Headers {
  import opened Options
  import opened Words
  import opened Text
  import opened Numbers
  import opened Loaders

  datatype DbType = Unknown | Btree | Hash | Heap | Recno | Queue

  /** What a header line has done to the handle of the database. */
  datatype Call =
    | SetNumber(keyword: string, number: int)
    | SetFlag(keyword: string)
    | SetPad(pad: char)
    | SetCompress
    | SetHeapsize(gbytes: word, bytes: word)

  /** What a header sets. Without a line for the keys, keys is -1. */
  datatype Fields = Fields(dbtype: DbType, checkprint: bool, keys: int, subdb: Option<seq<byte>>, version: int,
                           calls: seq<Call>, heapBytes: word, heapGbytes: word)

  /** The fields before the first line: a name and a version may be there from an earlier header. */
  function Blank(subdb: Option<seq<byte>>, version: int): Fields {
    Fields(Unknown, false, -1, subdb, version, [], 0, 0)
  }

  datatype Outcome = More(fields: Fields) | Done(fields: Fields) | Bad | Outside

  // ---------- one line ----------

  const NUMBERS := ["bt_minkey", "db_pagesize", "extentsize", "h_ffactor", "h_nelem", "heap_regionsize", "re_len"]
  const FLAGS := ["chksum", "duplicates", "dupsort", "recnum", "renumber"]

  /** A long cast to an int. */
  function AsInt(v: nat): int {
    var w := v % WORD_RANGE;
    if w < WORD_RANGE / 2 then w else w - WORD_RANGE
  }

  /** The bytes of a C string */
  function CBytes(bytes: seq<byte>): seq<byte> {
    if bytes == [] || bytes[0] == 0 then [] else [bytes[0]] + CBytes(bytes[1..])
  }

  lemma {:induction false} CBytesKeepAll(bytes: seq<byte>)
    ensures CBytes(bytes) == bytes <==> 0 !in bytes
    ensures CBytes(bytes) <= bytes && 0 !in CBytes(bytes)
    ensures |CBytes(bytes)| < |bytes| ==> bytes[|CBytes(bytes)|] == 0
  {
    if bytes != [] {
      CBytesKeepAll(bytes[1..]);
      assert bytes == [bytes[0]] + bytes[1..];
    }
  }

  function Name(f: Fields, value: string): (o: Outcome)
    ensures !o.Done?
  {
    if !Complete(value) then Outside
    else match Unescape(value)
      case None => Bad
      case Some(bytes) => More(f.(subdb := Some(CBytes(bytes))))
  }

  function Number(f: Fields, name: string, value: string, int32: bool): Outcome {
    match GetLong(value)
    case None => Bad
    case Some(v) => More(f.(calls := f.calls + [SetNumber(name, if int32 then AsInt(v) else v % WORD_RANGE)]))
  }

  /** Only the first character of a flag's value counts. */
  function Switch(f: Fields, value: string, call: Call): Outcome
    requires value != ""
  {
    if value[0] == '1' then More(f.(calls := f.calls + [call]))
    else if value[0] == '0' then More(f)
    else Bad
  }

  function Configuration(f: Fields, name: string, value: string): (o: Outcome)
    requires value != ""
    ensures !o.Done?
  {
    if name in NUMBERS then Number(f, name, value, false)
    else if name == "db_lorder" then Number(f, name, value, true)
    else if name in FLAGS then Switch(f, value, SetFlag(name))
    else if name == "re_pad" then More(f.(calls := f.calls + [SetPad(value[0])]))
    else if name == "compressed" then Switch(f, value, SetCompress)
    else if name == "heap_bytes" then
      match GetLong(value) case None => Bad case Some(v) => More(f.(heapBytes := v % WORD_RANGE))
    else if name == "heap_gbytes" then
      match GetLong(value) case None => Bad case Some(v) => More(f.(heapGbytes := v % WORD_RANGE))
    else Bad
  }

  function TypeOf(value: string): DbType {
    if value == "btree" then Btree
    else if value == "hash" then Hash
    else if value == "heap" then Heap
    else if value == "recno" then Recno
    else if value == "queue" then Queue
    else Unknown
  }

  /** A line that assigns a value which is not empty. */
  function Assign(f: Fields, name: string, value: string): Outcome
    requires value != ""
  {
    if name == "HEADER" then Done(f)
    else if name == "VERSION" then
      if !(-0x8000_0000 <= Atoi(value) < 0x8000_0000) then Outside
      else if Atoi(value) > 3 then Bad
      else More(f.(version := Atoi(value)))
    else if name == "format" then
      if value == "bytevalue" then More(f.(checkprint := false))
      else if value == "print" then More(f.(checkprint := true))
      else Bad
    else if name == "type" then
      if TypeOf(value) == Unknown then Bad else More(f.(dbtype := TypeOf(value)))
    else if name == "keys" then
      if value == "1" then More(f.(keys := 1)) else if value == "0" then More(f.(keys := 0)) else Bad
    else if name == "nparts" then Outside
    else Configuration(f, name, value)
  }

  predicate IsName(name: string) {
    name == "database" || name == "subdatabase"
  }

  /** A whole line, as a C string: split at the first equals sign. */
  function HeaderLine(f: Fields, line: string): Outcome {
    var eq := Find(line, '=', 0);
    if eq == |line| || eq == 0 then Bad
    else if IsName(line[..eq]) then Name(f, line[eq + 1..])
    else if line[eq + 1..] == "" then Bad
    else Assign(f, line[..eq], line[eq + 1..])
  }

  /** After the last line: the two parts of a heap's size go together. */
  function Finish(f: Fields): Fields {
    if f.heapGbytes != 0 || f.heapBytes != 0 then f.(calls := f.calls + [SetHeapsize(f.heapGbytes, f.heapBytes)]) else f
  }

  // ---------- whole headers ----------

  /** Parsed says where the header ended and how many lines it had; Cut is an input or a buffer that ends too soon. */
  datatype Run = Parsed(fields: Fields, end: nat, lines: nat) | Cut | Failed | Beyond

  /** The header that starts at pos of the input, its first lines having been counted already. */
  function RunInput(input: string, pos: nat, f: Fields, lines: nat): (r: Run)
    requires pos <= |input|
    ensures r.Parsed? ==> pos < r.end <= |input| && lines < r.lines
    decreases |input| - pos
  {
    var end := LineEnd(input, pos);
    if end == |input| then Cut
    else match HeaderLine(f, CString(input[pos..end]))
      case Bad => Failed
      case Outside => Beyond
      case Done(g) => Parsed(g, end + 1, lines + 1)
      case More(g) => RunInput(input, end + 1, g, lines + 1)
  }

  /** The header that starts at a place of the saved copy, where a zero ends each line. */
  function RunSaved(saved: string, start: nat, f: Fields, lines: nat): (r: Run)
    requires start <= |saved|
    ensures r.Parsed? ==> start < r.end <= |saved| && lines < r.lines
    decreases |saved| - start
  {
    var end := Find(saved, '\0', start);
    if end == |saved| then Cut
    else match HeaderLine(f, saved[start..end])
      case Bad => Failed
      case Outside => Beyond
      case Done(g) => Parsed(g, end + 1, lines + 1)
      case More(g) => RunSaved(saved, end + 1, g, lines + 1)
  }

  /** The buffer starts with this stretch of the input, a zero in the place of each newline. */
  predicate IsSaved(saved: string, input: string, pos: nat, end: nat)
    requires pos <= end <= |input|
  {
    end - pos <= |saved| && forall k :: pos <= k < end ==> saved[k - pos] == if input[k] == '\n' then '\0' else input[k]
  }

  // ---------- reading the saved copy again ----------

  /** Two sets of fields that differ in nothing but a version or a name that f has and f' has, or g ends with. */
  predicate Alike(f: Fields, f': Fields, g: Fields) {
    && f' == f.(version := f'.version, subdb := f'.subdb)
    && (f'.version == f.version || f'.version == g.version)
    && (f'.subdb == f.subdb || f'.subdb == g.subdb)
  }

  /** A line goes the same way from both, and leaves them so. */
  predicate SameWay(f: Fields, f': Fields, g: Fields, o: Outcome, o': Outcome) {
    match (o, o')
    case (More(h), More(h')) => Alike(h, h', g)
    case (Done(h), Done(h')) => h == f && h' == f'
    case (Bad, Bad) => true
    case (Outside, Outside) => true
    case _ => false
  }

  lemma NameKeepsAlike(f: Fields, f': Fields, g: Fields, value: string)
    requires Alike(f, f', g)
    ensures SameWay(f, f', g, Name(f, value), Name(f', value))
  {
    hide Complete, Unescape, CBytes;
  }

  lemma ConfigurationKeepsAlike(f: Fields, f': Fields, g: Fields, name: string, value: string)
    requires Alike(f, f', g) && value != ""
    ensures SameWay(f, f', g, Configuration(f, name, value), Configuration(f', name, value))
  {
    hide GetLong, AsInt;
  }

  lemma AssignKeepsAlike(f: Fields, f': Fields, g: Fields, name: string, value: string)
    requires Alike(f, f', g) && value != ""
    ensures SameWay(f, f', g, Assign(f, name, value), Assign(f', name, value))
  {
    hide Configuration, Atoi, TypeOf;
    ConfigurationKeepsAlike(f, f', g, name, value);
  }

  lemma LineKeepsAlike(f: Fields, f': Fields, g: Fields, line: string)
    requires Alike(f, f', g)
    ensures SameWay(f, f', g, HeaderLine(f, line), HeaderLine(f', line))
  {
    hide Name, Assign, Alike, Find, IsName;
    var eq := Find(line, '=', 0);
    if 0 < eq < |line| {
      var name, value := line[..eq], line[eq + 1..];
      NameKeepsAlike(f, f', g, value);
      if value != "" { AssignKeepsAlike(f, f', g, name, value); }
    }
  }

  /** Whether a line ends the header does not depend on the lines before it. */
  lemma DoneIsDone(f: Fields, f': Fields, line: string)
    requires HeaderLine(f, line).Done?
    ensures HeaderLine(f', line) == Done(f')
  {
    hide Configuration, Name, Find;
  }

  predicate NoZero(s: string, from: nat, to: nat)
    requires from <= to <= |s|
  {
    forall k :: from <= k < to ==> s[k] != '\0'
  }

  lemma NoZeroThere(s: string, from: nat, to: nat, a: nat, b: nat)
    requires from <= a <= b <= to <= |s| && NoZero(s, from, to)
    ensures NoZero(s, a, b)
  {
  }

  lemma NoZeroIsWhole(s: string, from: nat, to: nat)
    requires from <= to <= |s| && NoZero(s, from, to)
    ensures CString(s[from..to]) == s[from..to]
  {
    assert forall k :: 0 <= k < to - from ==> s[from..to][k] == s[from + k];
  }

  /** Characters that are saved with a zero after them: the copy is cut where they are. */
  lemma PieceIsCString(saved: string, from: nat, line: string)
    requires from + |line| < |saved| && saved[from + |line|] == '\0'
    requires forall k :: 0 <= k < |line| ==> saved[from + k] == line[k]
    ensures var end := from + |CString(line)|;
            Find(saved, '\0', from) == end && saved[from..end] == CString(line)
  {
    hide Find;
    var n := Find(line, '\0', 0);
    forall k | from <= k < from + n ensures saved[k] != '\0' {
      assert saved[from + (k - from)] == line[k - from];
    }
    FindIs(saved, '\0', from, from + n);
  }

  /** Where a line was saved, the copy has the line up to its first zero. */
  lemma LineIsSaved(input: string, pos: nat, at: nat, q: nat, saved: string)
    requires pos <= at <= |input| && LineEnd(input, at) < q <= |input| && IsSaved(saved, input, pos, q)
    ensures var line := CString(input[at..LineEnd(input, at)]);
            var end := at - pos + |line|;
            end < |saved| && Find(saved, '\0', at - pos) == end && saved[at - pos..end] == line
    ensures var stop := LineEnd(input, at) - pos;
            at - pos + |CString(input[at..LineEnd(input, at)])| <= stop < |saved| && saved[stop] == '\0'
  {
    hide LineEnd, Find, CString;
    var line, from := input[at..LineEnd(input, at)], at - pos;
    assert saved[from + |line|] == '\0';
    forall k | 0 <= k < |line| ensures saved[from + k] == line[k] {
      assert line[k] == input[at + k];
    }
    PieceIsCString(saved, from, line);
  }

  /** A header has at least the line it starts with. */
  lemma RunEnds(input: string, at: nat, f: Fields, lines: nat)
    requires at <= |input| && RunInput(input, at, f, lines).Parsed?
    ensures LineEnd(input, at) < RunInput(input, at, f, lines).end
  {
    hide HeaderLine, LineEnd, CString;
  }

  /** What C sees of the rest of a line. */
  function Piece(input: string, at: nat): string
    requires at <= |input|
  {
    CString(input[at..LineEnd(input, at)])
  }

  /** Where the line starts that ends the header. */
  function LastLine(input: string, at: nat, f: Fields, lines: nat): (r: nat)
    requires at <= |input| && RunInput(input, at, f, lines).Parsed?
    ensures at <= r < RunInput(input, at, f, lines).end
    decreases |input| - at
  {
    match HeaderLine(f, Piece(input, at))
    case More(g) => LastLine(input, LineEnd(input, at) + 1, g, lines + 1)
    case _ => at
  }

  /** Without a zero before the last line, each line up to it is found again in the saved copy. */
  lemma {:induction false} SavedRun(input: string, pos: nat, at: nat, f: Fields, f': Fields, lines: nat, saved: string)
    requires pos <= at <= |input| && RunInput(input, at, f, lines).Parsed?
    requires var r := RunInput(input, at, f, lines);
             && Alike(f, f', r.fields) && IsSaved(saved, input, pos, r.end)
             && NoZero(input, at, LastLine(input, at, f, lines))
    ensures at - pos <= |saved|
    ensures var r, last := RunInput(input, at, f, lines), LastLine(input, at, f, lines);
            match RunSaved(saved, at - pos, f', lines)
            case Parsed(g, end, n) =>
              Alike(r.fields, g, r.fields) && n == r.lines && end == last - pos + |Piece(input, last)| + 1
            case _ => false
    decreases |input| - at
  {
    hide HeaderLine, LineEnd, Find, CString, IsSaved, Alike, NoZero;
    var r, end, last := RunInput(input, at, f, lines), LineEnd(input, at), LastLine(input, at, f, lines);
    var line := Piece(input, at);
    RunEnds(input, at, f, lines);
    LineIsSaved(input, pos, at, r.end, saved);
    LineKeepsAlike(f, f', r.fields, line);
    if HeaderLine(f, line).More? {
      NoZeroThere(input, at, last, at, end);
      NoZeroThere(input, at, last, end + 1, last);
      NoZeroIsWhole(input, at, end);
      SavedRun(input, pos, end + 1, HeaderLine(f, line).fields, HeaderLine(f', line).fields, lines + 1, saved);
    }
  }

  /** How often c occurs. */
  function Occurrences(s: string, c: char, from: nat, end: nat): nat
    requires from <= end <= |s|
  {
    if from == end then 0 else Occurrences(s, c, from, end - 1) + if s[end - 1] == c then 1 else 0
  }

  lemma {:induction false} CountSplit(s: string, c: char, from: nat, mid: nat, end: nat)
    requires from <= mid <= end <= |s|
    ensures Occurrences(s, c, from, end) == Occurrences(s, c, from, mid) + Occurrences(s, c, mid, end)
    decreases end
  {
    if mid < end { CountSplit(s, c, from, mid, end - 1); }
  }

  lemma {:induction false} CountNone(s: string, c: char, from: nat, end: nat)
    requires from <= end <= |s|
    ensures Occurrences(s, c, from, end) == 0 <==> forall k :: from <= k < end ==> s[k] != c
    decreases end
  {
    if from < end { CountNone(s, c, from, end - 1); }
  }

  /** A line, which has none inside, and the character that ends it. */
  lemma CountLine(s: string, c: char, from: nat, end: nat, to: nat)
    requires from <= end < to <= |s| && s[end] == c && forall k :: from <= k < end ==> s[k] != c
    ensures Occurrences(s, c, from, to) == 1 + Occurrences(s, c, end + 1, to)
  {
    CountNone(s, c, from, end);
    CountSplit(s, c, from, end + 1, to);
  }

  lemma {:induction false} LinesRead(input: string, at: nat, f: Fields, lines: nat)
    requires at <= |input| && RunInput(input, at, f, lines).Parsed?
    ensures var r := RunInput(input, at, f, lines); r.lines == lines + Occurrences(input, '\n', at, r.end)
    decreases |input| - at
  {
    hide HeaderLine, LineEnd, CString, Occurrences;
    var r, end := RunInput(input, at, f, lines), LineEnd(input, at);
    RunEnds(input, at, f, lines);
    CountLine(input, '\n', at, end, r.end);
    CountNone(input, '\n', end + 1, end + 1);
    if HeaderLine(f, CString(input[at..end])).More? {
      LinesRead(input, end + 1, HeaderLine(f, CString(input[at..end])).fields, lines + 1);
    }
  }

  lemma {:induction false} LinesSaved(saved: string, start: nat, f: Fields, lines: nat)
    requires start <= |saved| && RunSaved(saved, start, f, lines).Parsed?
    ensures var r := RunSaved(saved, start, f, lines); r.lines == lines + Occurrences(saved, '\0', start, r.end)
    decreases |saved| - start
  {
    hide HeaderLine, Find, Occurrences;
    var r, end := RunSaved(saved, start, f, lines), Find(saved, '\0', start);
    CountNone(saved, '\0', end + 1, end + 1);
    if HeaderLine(f, saved[start..end]).More? {
      LinesSaved(saved, end + 1, HeaderLine(f, saved[start..end]).fields, lines + 1);
    }
    CountLine(saved, '\0', start, end, r.end);
  }

  /** The zeros of the copy are the newlines and the zeros of the original. */
  lemma {:induction false} ZerosSaved(input: string, pos: nat, end: nat, saved: string)
    requires pos <= end <= |input| && IsSaved(saved, input, pos, end)
    ensures Occurrences(saved, '\0', 0, end - pos) == Occurrences(input, '\n', pos, end) + Occurrences(input, '\0', pos, end)
    decreases end
  {
    if pos < end {
      ZerosSaved(input, pos, end - 1, saved);
      assert saved[end - 1 - pos] == if input[end - 1] == '\n' then '\0' else input[end - 1];
    }
  }

  /** Reading the copy again never runs past its end: a last line is met at the latest where the header had it. */
  lemma {:induction false} SavedIsNeverCut(input: string, pos: nat, at: nat, f: Fields, lines: nat, saved: string,
                                           start: nat, f': Fields, lines': nat)
    requires pos <= at <= |input| && RunInput(input, at, f, lines).Parsed?
    requires var r := RunInput(input, at, f, lines);
             IsSaved(saved, input, pos, r.end)
    requires start <= at - pos <= |saved| && (start < at - pos ==> saved[at - pos - 1] == '\0')
    ensures RunSaved(saved, start, f', lines') != Cut
    decreases |saved| - start
  {
    hide HeaderLine, LineEnd, Find, CString, IsSaved;
    var r, end := RunInput(input, at, f, lines), LineEnd(input, at);
    var stop := Find(saved, '\0', start);
    RunEnds(input, at, f, lines);
    LineIsSaved(input, pos, at, r.end, saved);
    if start < at - pos {
      assert stop <= at - pos - 1;
      if HeaderLine(f', saved[start..stop]).More? {
        SavedIsNeverCut(input, pos, at, f, lines, saved, stop + 1, HeaderLine(f', saved[start..stop]).fields, lines' + 1);
      }
    } else {
      var line := CString(input[at..end]);
      if HeaderLine(f, line).Done? {
        DoneIsDone(f, f', line);
      } else if HeaderLine(f', line).More? {
        SavedIsNeverCut(input, pos, end + 1, HeaderLine(f, line).fields, lines + 1, saved,
                        stop + 1, HeaderLine(f', line).fields, lines' + 1);
      }
    }
  }

  // ---------- zeros in the header ----------

  /** Does a line end the header, whatever came before? */
  predicate EndsHeader(line: string) {
    HeaderLine(Blank(None, 0), line).Done?
  }

  lemma EndsAnyHeader(f: Fields, line: string)
    ensures HeaderLine(f, line).Done? <==> EndsHeader(line)
  {
    hide HeaderLine;
    if HeaderLine(f, line).Done? {
      DoneIsDone(f, Blank(None, 0), line);
    } else if EndsHeader(line) {
      DoneIsDone(Blank(None, 0), f, line);
    }
  }

  /** Places where a line starts, in the input or in the copy. */
  predicate PieceStarts(input: string, pos: nat, p: nat)
    requires p <= |input|
  {
    p == pos || (0 < p && (input[p - 1] == '\n' || input[p - 1] == '\0'))
  }

  predicate LineStarts(input: string, pos: nat, p: nat)
    requires p <= |input|
  {
    p == pos || (0 < p && input[p - 1] == '\n')
  }

  /** No piece behind a zero of the lines before the last would end the header. */
  predicate NoHeaderBehindZero(input: string, pos: nat, last: nat)
    requires pos <= last <= |input|
  {
    forall k :: pos <= k < last && input[k] == '\0' ==> !EndsHeader(Piece(input, k + 1))
  }

  /** The lines before the last do not end the header, the last one does. */
  lemma {:induction false} LinesBeforeLast(input: string, at: nat, f: Fields, lines: nat)
    requires at <= |input| && RunInput(input, at, f, lines).Parsed?
    ensures var last := LastLine(input, at, f, lines);
            && LineStarts(input, at, last) && EndsHeader(Piece(input, last))
            && LineEnd(input, last) + 1 == RunInput(input, at, f, lines).end
            && (forall p :: at <= p < last && LineStarts(input, at, p) ==> !EndsHeader(Piece(input, p)))
    decreases |input| - at
  {
    hide HeaderLine, LineEnd, CString, EndsHeader;
    var end, last := LineEnd(input, at), LastLine(input, at, f, lines);
    RunEnds(input, at, f, lines);
    EndsAnyHeader(f, Piece(input, at));
    if HeaderLine(f, Piece(input, at)).More? {
      LinesBeforeLast(input, end + 1, HeaderLine(f, Piece(input, at)).fields, lines + 1);
      forall p | at <= p < last && LineStarts(input, at, p) ensures !EndsHeader(Piece(input, p)) {
        if p != at {
          assert p > end;
          assert LineStarts(input, end + 1, p);
        }
      }
    }
  }

  /** Newlines and zeros. */
  function Breaks(input: string, from: nat, end: nat): nat
    requires from <= end <= |input|
  {
    Occurrences(input, '\n', from, end) + Occurrences(input, '\0', from, end)
  }

  lemma BreaksStep(input: string, from: nat, end: nat)
    requires from <= end < |input|
    ensures Breaks(input, from, end + 1) ==
            Breaks(input, from, end) + if input[end] == '\n' || input[end] == '\0' then 1 else 0
  {
  }

  /** A piece, which has no newline and no zero, and the character that ends it. */
  lemma PieceEnds(input: string, at: nat)
    requires at <= |input| && LineEnd(input, at) < |input|
    ensures var stop := at + |Piece(input, at)|;
            && stop <= LineEnd(input, at) && (input[stop] == '\n' || input[stop] == '\0')
            && Breaks(input, at, stop + 1) == 1
  {
    hide LineEnd, Occurrences, Find;
    var line := input[at..LineEnd(input, at)];
    var stop := at + |Piece(input, at)|;
    assert forall k :: 0 <= k < |line| ==> line[k] == input[at + k];
    forall k | at <= k < stop ensures input[k] != '\n' && input[k] != '\0' {
      assert input[k] == line[k - at];
    }
    CountNone(input, '\n', at, stop);
    CountNone(input, '\0', at, stop);
    BreaksStep(input, at, stop);
  }

  lemma LineEndBefore(input: string, at: nat, last: nat)
    requires at <= last <= |input| && LineEnd(input, last) < |input|
    ensures LineEnd(input, at) <= LineEnd(input, last)
    ensures at < last && input[last - 1] == '\n' ==> LineEnd(input, at) < last
  {
  }

  lemma NoBreaks(input: string, at: nat)
    requires at <= |input|
    ensures Breaks(input, at, at) == 0
  {
  }

  lemma BreaksSplit(input: string, from: nat, mid: nat, end: nat)
    requires from <= mid <= end <= |input|
    ensures Breaks(input, from, end) == Breaks(input, from, mid) + Breaks(input, mid, end)
  {
    hide Occurrences;
    CountSplit(input, '\n', from, mid, end);
    CountSplit(input, '\0', from, mid, end);
  }

  /**
   * If no piece before the last line ends the header, a second reading that ends at all has taken every
   * piece up to the last line's.
   */
  lemma {:induction false} RereadTakesAll(input: string, pos: nat, at: nat, last: nat, q: nat, saved: string,
                                          f: Fields, n: nat)
    requires pos <= at <= last <= |input| && LineEnd(input, last) < q <= |input| && IsSaved(saved, input, pos, q)
    requires LineStarts(input, pos, last) && EndsHeader(Piece(input, last)) && PieceStarts(input, pos, at)
    requires forall p :: at <= p < last && PieceStarts(input, pos, p) ==> !EndsHeader(Piece(input, p))
    ensures at - pos <= |saved|
    ensures var again := RunSaved(saved, at - pos, f, n);
            again.Parsed? ==> again.lines == n + Breaks(input, at, last) + 1
    decreases last - at
  {
    hide HeaderLine, LineEnd, CString, Find, IsSaved, EndsHeader, Breaks;
    var line := Piece(input, at);
    LineEndBefore(input, at, last);
    LineIsSaved(input, pos, at, q, saved);
    EndsAnyHeader(f, line);
    if at == last {
      NoBreaks(input, at);
    } else {
      PieceEnds(input, at);
      var next := at + |line| + 1;
      BreaksSplit(input, at, next, last);
      if HeaderLine(f, line).More? {
        RereadTakesAll(input, pos, next, last, q, saved, HeaderLine(f, line).fields, n + 1);
      }
    }
  }

  /** Does a second reading set the same as the first, on as many lines? */
  predicate SameReading(r: Run, again: Run)
    requires r.Parsed?
  {
    again.Parsed? && again.fields == r.fields && again.lines == r.lines
  }

  /** As many lines the second time: then there was no zero before the last line. */
  lemma ZerosAddLines(input: string, pos: nat, f: Fields, f': Fields, lines: nat, saved: string)
    requires pos <= |input| && RunInput(input, pos, f, lines).Parsed?
    requires IsSaved(saved, input, pos, RunInput(input, pos, f, lines).end)
    requires NoHeaderBehindZero(input, pos, LastLine(input, pos, f, lines))
    requires var again := RunSaved(saved, 0, f', lines); again.Parsed? && again.lines == RunInput(input, pos, f, lines).lines
    ensures NoZero(input, pos, LastLine(input, pos, f, lines))
  {
    hide HeaderLine, RunInput, RunSaved, IsSaved, Occurrences, EndsHeader, LineEnd, CString, LastLine;
    var r, last := RunInput(input, pos, f, lines), LastLine(input, pos, f, lines);
    LinesBeforeLast(input, pos, f, lines);
    forall p | pos <= p < last && PieceStarts(input, pos, p) ensures !EndsHeader(Piece(input, p)) {
      if !LineStarts(input, pos, p) && p > pos { assert input[p - 1] == '\0'; }
    }
    RereadTakesAll(input, pos, pos, last, r.end, saved, f', lines);
    LinesRead(input, pos, f, lines);
    var end := LineEnd(input, last);
    CountSplit(input, '\n', pos, last, r.end);
    CountLine(input, '\n', last, end, r.end);
    CountNone(input, '\n', r.end, r.end);
    CountNone(input, '\0', pos, last);
  }

  lemma WholeLastLine(input: string, pos: nat, f: Fields, lines: nat)
    requires pos <= |input| && RunInput(input, pos, f, lines).Parsed?
    requires NoZero(input, pos, RunInput(input, pos, f, lines).end)
    ensures var last := LastLine(input, pos, f, lines);
            last + |Piece(input, last)| + 1 == RunInput(input, pos, f, lines).end
  {
    hide RunInput, LastLine, EndsHeader, CString, NoZero;
    var r, last := RunInput(input, pos, f, lines), LastLine(input, pos, f, lines);
    LinesBeforeLast(input, pos, f, lines);
    NoZeroThere(input, pos, r.end, last, LineEnd(input, last));
    NoZeroIsWhole(input, last, LineEnd(input, last));
  }

  /** Had it gone as well the second time, it would have had no zero. */
  lemma ZerosAreLines(input: string, pos: nat, f: Fields, f': Fields, lines: nat, saved: string)
    requires pos <= |input| && RunInput(input, pos, f, lines).Parsed?
    requires var r := RunInput(input, pos, f, lines);
             && IsSaved(saved, input, pos, r.end)
             && RunSaved(saved, 0, f', lines) == Parsed(r.fields, r.end - pos, r.lines)
    ensures NoZero(input, pos, RunInput(input, pos, f, lines).end)
  {
    hide RunInput, RunSaved, IsSaved, Occurrences;
    var r := RunInput(input, pos, f, lines);
    LinesRead(input, pos, f, lines);
    LinesSaved(saved, 0, f', lines);
    ZerosSaved(input, pos, r.end, saved);
    CountNone(input, '\0', pos, r.end);
  }

  /**
   * Reading a header again from its saved copy, with the name and version that the first reading has
   * left. If the lines before the last have no zero, it sets everything as the first did, on as many
   * lines; as long as no piece behind a zero would end the header, it does so only then. It comes to
   * the end of the copy as well exactly if the last line has no zero either.
   */
  lemma RereadIsTheSame(input: string, pos: nat, subdb: Option<seq<byte>>, version: int, lines: nat, saved: string)
    requires pos <= |input| && RunInput(input, pos, Blank(subdb, version), lines).Parsed?
    requires IsSaved(saved, input, pos, RunInput(input, pos, Blank(subdb, version), lines).end)
    ensures var f := Blank(subdb, version);
            var r, last := RunInput(input, pos, f, lines), LastLine(input, pos, f, lines);
            var again := RunSaved(saved, 0, Blank(r.fields.subdb, r.fields.version), lines);
            && again != Cut
            && (NoZero(input, pos, last) ==> SameReading(r, again))
            && (NoHeaderBehindZero(input, pos, last) ==> (SameReading(r, again) <==> NoZero(input, pos, last)))
            && (again == Parsed(r.fields, r.end - pos, r.lines) <==> NoZero(input, pos, r.end))
  {
    hide RunInput, RunSaved, IsSaved, NoZero, LastLine, Piece, NoHeaderBehindZero, EndsHeader, LineEnd;
    var f := Blank(subdb, version);
    var r, last := RunInput(input, pos, f, lines), LastLine(input, pos, f, lines);
    var f' := Blank(r.fields.subdb, r.fields.version);
    var again := RunSaved(saved, 0, f', lines);
    SavedIsNeverCut(input, pos, pos, f, lines, saved, 0, f', lines);
    if NoZero(input, pos, last) {
      SavedRun(input, pos, pos, f, f', lines, saved);
    } else if NoHeaderBehindZero(input, pos, last) && SameReading(r, again) {
      ZerosAddLines(input, pos, f, f', lines, saved);
    }
    if NoZero(input, pos, r.end) {
      NoZeroThere(input, pos, r.end, pos, last);
      WholeLastLine(input, pos, f, lines);
    } else if again == Parsed(r.fields, r.end - pos, r.lines) {
      ZerosAreLines(input, pos, f, f', lines, saved);
    }
  }

  lemma AssignmentLine(f: Fields, name: string, value: string)
    requires name != "" && value != "" && !IsName(name) && '=' !in name
    ensures HeaderLine(f, name + "=" + value) == Assign(f, name, value)
  {
    hide Assign, Find;
    var line := name + "=" + value;
    FindIs(line, '=', 0, |name|);
    assert line[..|name|] == name && line[|name| + 1..] == value;
  }

  lemma EndLine(f: Fields)
    ensures HeaderLine(f, "HEADER=END") == Done(f)
  {
    hide HeaderLine;
    AssignmentLine(f, "HEADER", "END");
    assert "HEADER" + "=" + "END" == "HEADER=END";
  }

  lemma BtreeLine(f: Fields)
    ensures HeaderLine(f, "type=btree") == More(f.(dbtype := Btree))
  {
    hide HeaderLine;
    AssignmentLine(f, "type", "btree");
    assert "type" + "=" + "btree" == "type=btree";
  }

  lemma CutShort(line: string, n: nat)
    requires n < |line| && line[n] == '\0' && '\0' !in line[..n]
    ensures CString(line) == line[..n]
  {
    hide Find;
    assert forall k :: 0 <= k < n ==> line[k] == line[..n][k];
    FindIs(line, '\0', 0, n);
  }

  const ZERO_HEADER := "type=btree\0\nHEADER=END\n"
  const ZERO_SAVED := "type=btree\0\0HEADER=END\0"

  lemma NothingAssigned(f: Fields)
    ensures HeaderLine(f, "") == Bad
  {
  }

  /** A zero that splits a line: the header is read once and refused when it is read again. */
  lemma ZeroInHeader()
    ensures RunInput(ZERO_HEADER, 0, Blank(None, 1), 0) == Parsed(Blank(None, 1).(dbtype := Btree), 23, 2)
    ensures IsSaved(ZERO_SAVED, ZERO_HEADER, 0, 23) && RunSaved(ZERO_SAVED, 0, Blank(None, 1), 0) == Failed
  {
    hide HeaderLine, LineEnd, Find, CString;
    var input, saved := ZERO_HEADER, ZERO_SAVED;
    var f := Blank(None, 1);
    var g := f.(dbtype := Btree);
    assert input[0..11] == "type=btree\0" && input[12..22] == "HEADER=END";
    LineEndIs(input, 0, 11);
    LineEndIs(input, 12, 22);
    CutShort(input[0..11], 10);
    NoZeroIsWhole(input, 12, 22);
    assert input[0..11][..10] == "type=btree";
    BtreeLine(f);
    EndLine(g);
    assert RunInput(input, 12, g, 1) == Parsed(g, 23, 2);
    FindIs(saved, '\0', 0, 10);
    FindIs(saved, '\0', 11, 11);
    assert saved[0..10] == "type=btree" && saved[11..11] == "";
    NothingAssigned(g);
  }

  const EARLY_HEADER := "type=btree\0HEADER=END\nHEADER=END\n"
  const EARLY_SAVED := "type=btree\0HEADER=END\0HEADER=END\0"

  lemma EarlyRead()
    ensures RunInput(EARLY_HEADER, 0, Blank(None, 1), 0) == Parsed(Blank(None, 1).(dbtype := Btree), 33, 2)
  {
    hide HeaderLine, LineEnd, Find, CString;
    var input, f := EARLY_HEADER, Blank(None, 1);
    var g := f.(dbtype := Btree);
    assert input[0..21] == "type=btree\0HEADER=END" && input[22..32] == "HEADER=END";
    LineEndIs(input, 0, 21);
    LineEndIs(input, 22, 32);
    CutShort(input[0..21], 10);
    NoZeroIsWhole(input, 22, 32);
    assert input[0..21][..10] == "type=btree";
    BtreeLine(f);
    EndLine(g);
    assert RunInput(input, 22, g, 1) == Parsed(g, 33, 2);
  }

  lemma EarlyPieces()
    ensures EARLY_SAVED[0..10] == "type=btree" && EARLY_SAVED[11..21] == "HEADER=END"
  {
    var rest := "HEADER=END\0HEADER=END\0";
    assert EARLY_SAVED == "type=btree\0" + rest;
    assert EARLY_SAVED[11..21] == rest[0..10];
  }

  lemma EarlyReread()
    ensures RunSaved(EARLY_SAVED, 0, Blank(None, 1), 0) == Parsed(Blank(None, 1).(dbtype := Btree), 22, 2)
  {
    hide HeaderLine, Find;
    var saved, f := EARLY_SAVED, Blank(None, 1);
    var g := f.(dbtype := Btree);
    EarlyPieces();
    FindIs(saved, '\0', 0, 10);
    FindIs(saved, '\0', 11, 21);
    BtreeLine(f);
    EndLine(g);
    assert RunSaved(saved, 11, g, 1) == Parsed(g, 22, 2);
  }

  /** A zero that goes unnoticed, because the piece behind it ends the second reading just in time. */
  lemma EarlyHeader()
    ensures RunInput(EARLY_HEADER, 0, Blank(None, 1), 0) == Parsed(Blank(None, 1).(dbtype := Btree), 33, 2)
    ensures IsSaved(EARLY_SAVED, EARLY_HEADER, 0, 33)
    ensures RunSaved(EARLY_SAVED, 0, Blank(None, 1), 0) == Parsed(Blank(None, 1).(dbtype := Btree), 22, 2)
  {
    hide RunInput, RunSaved;
    EarlyRead();
    EarlyReread();
  }
}
