/** The headers of dump versions 2 and 3, as db_dump writes them, and what db_load makes of each line. */
module HeaderTexts {
  import opened Options
  import opened Words
  import opened Text
  import opened Numbers
  import opened Loaders
  import opened Headers
  import opened HeaderReaders
  import opened WholeFiles

  /** One line of a header. Whatever follows the first character of a flag or a pad is not looked at. */
  datatype Setting =
    | VersionIs(version: nat)
    | FormatIs(escaped: bool)
    | NameIs(sub: bool, isprint: byte -> bool, bytes: seq<byte>)
    | TypeIs(dbtype: DbType)
    | KeysAre(keys: bool)
    | NumberIs(keyword: string, number: nat)
    | LorderIs(number: nat)
    | FlagIs(keyword: string, on: bool, more: string)
    | CompressedIs(on: bool, more: string)
    | PadIs(pad: char, more: string)
    | HeapBytesAre(number: nat)
    | HeapGbytesAre(number: nat)

  predicate IsNumber(keyword: string) {
    || keyword == "bt_minkey" || keyword == "db_pagesize" || keyword == "extentsize" || keyword == "h_ffactor"
    || keyword == "h_nelem" || keyword == "heap_regionsize" || keyword == "re_len"
  }

  predicate IsFlag(keyword: string) {
    || keyword == "chksum" || keyword == "duplicates" || keyword == "dupsort" || keyword == "recnum"
    || keyword == "renumber"
  }

  /** The keyword is one that there is, and the line has neither a newline nor a zero in its middle. */
  predicate WellFormed(s: Setting) {
    match s
    case NameIs(_, isprint, bytes) => !(isprint(10) && 10 in bytes) && !(isprint(0) && 0 in bytes)
    case NumberIs(keyword, _) => IsNumber(keyword)
    case FlagIs(keyword, _, more) => IsFlag(keyword) && Clean(more)
    case CompressedIs(_, more) => Clean(more)
    case PadIs(pad, more) => Clean([pad]) && Clean(more)
    case _ => true
  }

  function Keyword(s: Setting): string {
    match s
    case VersionIs(_) => "VERSION"
    case FormatIs(_) => "format"
    case NameIs(sub, _, _) => if sub then "subdatabase" else "database"
    case TypeIs(_) => "type"
    case KeysAre(_) => "keys"
    case NumberIs(keyword, _) => keyword
    case LorderIs(_) => "db_lorder"
    case FlagIs(keyword, _, _) => keyword
    case CompressedIs(_, _) => "compressed"
    case PadIs(_, _) => "re_pad"
    case HeapBytesAre(_) => "heap_bytes"
    case HeapGbytesAre(_) => "heap_gbytes"
  }

  function TypeName(t: DbType): string {
    match t
    case Btree => "btree" case Hash => "hash" case Heap => "heap" case Recno => "recno" case Queue => "queue"
    case Unknown => "unknown"
  }

  function Value(s: Setting): string {
    match s
    case VersionIs(version) => Decimal(version)
    case FormatIs(escaped) => if escaped then "print" else "bytevalue"
    case NameIs(_, isprint, bytes) => PrintText(isprint, bytes)
    case TypeIs(dbtype) => TypeName(dbtype)
    case KeysAre(keys) => if keys then "1" else "0"
    case NumberIs(_, number) => Decimal(number)
    case LorderIs(number) => Decimal(number)
    case FlagIs(_, on, more) => (if on then "1" else "0") + more
    case CompressedIs(on, more) => (if on then "1" else "0") + more
    case PadIs(pad, more) => [pad] + more
    case HeapBytesAre(number) => Decimal(number)
    case HeapGbytesAre(number) => Decimal(number)
  }

  function SettingText(s: Setting): string {
    Keyword(s) + "=" + Value(s)
  }

  /** Versions above 3, an unknown type, and numbers above LONG_MAX */
  predicate Refused(s: Setting) {
    match s
    case VersionIs(version) => version > 3
    case TypeIs(dbtype) => dbtype == Unknown
    case NumberIs(_, number) => number > 0x7FFF_FFFF_FFFF_FFFF
    case LorderIs(number) => number > 0x7FFF_FFFF_FFFF_FFFF
    case HeapBytesAre(number) => number > 0x7FFF_FFFF_FFFF_FFFF
    case HeapGbytesAre(number) => number > 0x7FFF_FFFF_FFFF_FFFF
    case _ => false
  }

  /** The call that a line makes: numbers are cut to 32 bits, and that of the byte order is signed. */
  function CallOf(s: Setting): seq<Call> {
    match s
    case NumberIs(keyword, number) => [SetNumber(keyword, number % 0x1_0000_0000)]
    case LorderIs(number) =>
      var w := number % 0x1_0000_0000;
      [SetNumber("db_lorder", if w < 0x8000_0000 then w else w - 0x1_0000_0000)]
    case FlagIs(keyword, on, _) => if on then [SetFlag(keyword)] else []
    case CompressedIs(on, _) => if on then [SetCompress] else []
    case PadIs(pad, _) => [SetPad(pad)]
    case _ => []
  }

  /** What a line that is not refused sets. */
  function Effect(s: Setting, f: Fields): Fields {
    match s
    case VersionIs(version) => f.(version := version)
    case FormatIs(escaped) => f.(checkprint := escaped)
    case NameIs(_, _, bytes) => f.(subdb := Some(CBytes(bytes)))
    case TypeIs(dbtype) => f.(dbtype := dbtype)
    case KeysAre(keys) => f.(keys := if keys then 1 else 0)
    case HeapBytesAre(number) => f.(heapBytes := number % 0x1_0000_0000)
    case HeapGbytesAre(number) => f.(heapGbytes := number % 0x1_0000_0000)
    case _ => f.(calls := f.calls + CallOf(s))
  }

  // ---------- the keywords ----------

  lemma NumbersAreThese(name: string)
    ensures name in NUMBERS <==> IsNumber(name)
  {
    if IsNumber(name) {
      assert NUMBERS[0] == "bt_minkey" && NUMBERS[1] == "db_pagesize" && NUMBERS[2] == "extentsize" && NUMBERS[3] == "h_ffactor";
      assert NUMBERS[4] == "h_nelem" && NUMBERS[5] == "heap_regionsize" && NUMBERS[6] == "re_len";
    }
  }

  lemma FlagsAreThese(name: string)
    ensures name in FLAGS <==> IsFlag(name)
  {
    if IsFlag(name) {
      assert FLAGS[0] == "chksum" && FLAGS[1] == "duplicates" && FLAGS[2] == "dupsort";
      assert FLAGS[3] == "recnum" && FLAGS[4] == "renumber";
    }
  }

  /** The keywords of settings that are looked up behind all others. */
  predicate Configures(name: string) {
    || IsNumber(name) || IsFlag(name) || name == "db_lorder" || name == "re_pad" || name == "compressed"
    || name == "heap_bytes" || name == "heap_gbytes"
  }

  lemma NoTwoMeanings(name: string)
    requires Configures(name)
    ensures name != "" && '=' !in name && !IsName(name)
    ensures name != "HEADER" && name != "VERSION" && name != "format" && name != "type" && name != "keys" && name != "nparts"
  {
  }

  lemma ConfigurationLine(f: Fields, name: string, value: string)
    requires Configures(name) && value != ""
    ensures HeaderLine(f, name + "=" + value) == Configuration(f, name, value)
  {
    hide HeaderLine, Configuration, Configures, IsName;
    NoTwoMeanings(name);
    AssignmentLine(f, name, value);
  }

  lemma NumberIsConfigured(f: Fields, name: string, value: string)
    requires IsNumber(name) && value != ""
    ensures Configuration(f, name, value) == Number(f, name, value, false)
  {
    hide IsNumber, IsFlag, Number;
    NumbersAreThese(name);
  }

  lemma FlagIsNoNumber(name: string)
    requires IsFlag(name)
    ensures !IsNumber(name) && name != "db_lorder"
  {
  }

  lemma FlagIsConfigured(f: Fields, name: string, value: string)
    requires IsFlag(name) && value != ""
    ensures Configuration(f, name, value) == Switch(f, value, SetFlag(name))
  {
    hide IsNumber, IsFlag, Switch;
    NumbersAreThese(name);
    FlagsAreThese(name);
    FlagIsNoNumber(name);
  }

  lemma NeitherNumberNorFlag(name: string)
    requires name == "db_lorder" || name == "re_pad" || name == "compressed" || name == "heap_bytes" || name == "heap_gbytes"
    ensures !IsNumber(name) && !IsFlag(name)
  {
  }

  lemma RestIsConfigured(f: Fields, name: string, value: string)
    requires !IsNumber(name) && !IsFlag(name) && value != ""
    ensures name == "db_lorder" ==> Configuration(f, name, value) == Number(f, name, value, true)
    ensures name == "re_pad" ==> Configuration(f, name, value) == More(f.(calls := f.calls + [SetPad(value[0])]))
    ensures name == "compressed" ==> Configuration(f, name, value) == Switch(f, value, SetCompress)
    ensures name == "heap_bytes" ==>
              Configuration(f, name, value) ==
              match GetLong(value) case None => Bad case Some(v) => More(f.(heapBytes := v % 0x1_0000_0000))
    ensures name == "heap_gbytes" ==>
              Configuration(f, name, value) ==
              match GetLong(value) case None => Bad case Some(v) => More(f.(heapGbytes := v % 0x1_0000_0000))
    ensures name != "db_lorder" && name != "re_pad" && name != "compressed" && name != "heap_bytes" && name != "heap_gbytes" ==>
              Configuration(f, name, value) == Bad
  {
    hide IsNumber, IsFlag, Number, Switch, GetLong;
    NumbersAreThese(name);
    FlagsAreThese(name);
  }

  lemma NameLine(f: Fields, name: string, value: string)
    requires IsName(name)
    ensures HeaderLine(f, name + "=" + value) == Name(f, value)
  {
    hide Name, Assign, Find;
    var line := name + "=" + value;
    assert '=' !in name;
    FindIs(line, '=', 0, |name|);
    assert line[..|name|] == name && line[|name| + 1..] == value;
  }

  // ---------- one line ----------

  lemma NumberIsRead(number: nat)
    ensures Decimal(number) != ""
    ensures GetLong(Decimal(number)) == if number > 0x7FFF_FFFF_FFFF_FFFF then None else Some(number)
    ensures Atoi(Decimal(number)) == number
  {
    hide Decimal, GetLong, Atoi;
    GetLongExactly("", "", number, "");
    assert "" + "" + Decimal(number) + "" == Decimal(number);
  }

  lemma NumbersAreRead(f: Fields, s: Setting)
    requires WellFormed(s) && (s.NumberIs? || s.LorderIs? || s.HeapBytesAre? || s.HeapGbytesAre?)
    ensures HeaderLine(f, SettingText(s)) == if Refused(s) then Bad else More(Effect(s, f))
  {
    hide HeaderLine, Configuration, Decimal, GetLong, IsNumber, IsFlag;
    var name := Keyword(s);
    NumberIsRead(s.number);
    ConfigurationLine(f, name, Value(s));
    if s.NumberIs? {
      NumberIsConfigured(f, name, Value(s));
    } else {
      NeitherNumberNorFlag(name);
      RestIsConfigured(f, name, Value(s));
    }
  }

  lemma SwitchIsRead(f: Fields, on: bool, more: string, call: Call)
    ensures var value := (if on then "1" else "0") + more;
            value != "" && Switch(f, value, call) == More(f.(calls := f.calls + if on then [call] else []))
  {
    assert f.calls + [] == f.calls;
  }

  lemma FlagsAreRead(f: Fields, s: Setting)
    requires WellFormed(s) && (s.FlagIs? || s.CompressedIs? || s.PadIs?)
    ensures HeaderLine(f, SettingText(s)) == More(Effect(s, f))
  {
    hide HeaderLine, Configuration, IsNumber, IsFlag, Switch, Clean;
    var name := Keyword(s);
    ConfigurationLine(f, name, Value(s));
    if s.FlagIs? {
      SwitchIsRead(f, s.on, s.more, SetFlag(name));
      FlagIsConfigured(f, name, Value(s));
    } else {
      NeitherNumberNorFlag(name);
      RestIsConfigured(f, name, Value(s));
      if s.CompressedIs? { SwitchIsRead(f, s.on, s.more, SetCompress); }
    }
  }

  lemma NameIsRead(f: Fields, s: Setting)
    requires s.NameIs?
    ensures HeaderLine(f, SettingText(s)) == More(Effect(s, f))
  {
    hide HeaderLine, PrintText, Complete, Unescape, CBytes;
    NameLine(f, Keyword(s), Value(s));
    UnescapeInvertsPrintText(s.isprint, s.bytes);
  }

  lemma AssignmentsAreRead(f: Fields, s: Setting)
    requires s.VersionIs? || s.FormatIs? || s.TypeIs? || s.KeysAre?
    ensures HeaderLine(f, SettingText(s)) ==
            if Refused(s) then (if s.VersionIs? && s.version > 0x7FFF_FFFF then Outside else Bad) else More(Effect(s, f))
  {
    hide HeaderLine, Decimal, Atoi, Configuration;
    if s.VersionIs? { NumberIsRead(s.version); }
    AssignmentLine(f, Keyword(s), Value(s));
  }

  /** Each line of a header sets exactly what it says, or is refused. */
  lemma SettingIsRead(f: Fields, s: Setting)
    requires WellFormed(s)
    ensures HeaderLine(f, SettingText(s)) ==
            if Refused(s) then (if s.VersionIs? && s.version > 0x7FFF_FFFF then Outside else Bad) else More(Effect(s, f))
  {
    hide HeaderLine, SettingText, WellFormed;
    match s
    case NumberIs(_, _) => NumbersAreRead(f, s);
    case LorderIs(_) => NumbersAreRead(f, s);
    case HeapBytesAre(_) => NumbersAreRead(f, s);
    case HeapGbytesAre(_) => NumbersAreRead(f, s);
    case FlagIs(_, _, _) => FlagsAreRead(f, s);
    case CompressedIs(_, _) => FlagsAreRead(f, s);
    case PadIs(_, _) => FlagsAreRead(f, s);
    case NameIs(_, _, _) => NameIsRead(f, s);
    case _ => AssignmentsAreRead(f, s);
  }

  /**
   * A pad character is written as a number in hex, of which only the first character is read: whatever
   * it was, it comes back as the digit zero.
   */
  lemma PadIsLost(f: Fields, digits: string)
    ensures HeaderLine(f, "re_pad=0x" + digits) == More(f.(calls := f.calls + [SetPad('0')]))
  {
    hide HeaderLine, Configuration, IsNumber, IsFlag;
    var value := "0x" + digits;
    assert "re_pad=0x" + digits == "re_pad" + "=" + value;
    ConfigurationLine(f, "re_pad", value);
    NeitherNumberNorFlag("re_pad");
    RestIsConfigured(f, "re_pad", value);
  }

  // ---------- any line ----------

  /** Is an assignment with this name refused? */
  predicate IsRefused(name: string, value: string) {
    if name == "" then true
    else if name == "database" || name == "subdatabase" then Complete(value) && Unescape(value) == None
    else if value == "" then true
    else if name == "HEADER" || name == "nparts" || name == "re_pad" then false
    else if name == "VERSION" then 3 < Atoi(value) < 0x8000_0000
    else if name == "format" then value != "bytevalue" && value != "print"
    else if name == "type" then
      value != "btree" && value != "hash" && value != "heap" && value != "recno" && value != "queue"
    else if name == "keys" then value != "1" && value != "0"
    else if IsFlag(name) || name == "compressed" then value[0] != '1' && value[0] != '0'
    else if IsNumber(name) || name == "db_lorder" || name == "heap_bytes" || name == "heap_gbytes" then
      GetLong(value) == None
    else true
  }

  lemma NumberIsNoSwitch(name: string)
    requires IsNumber(name)
    ensures name != "compressed"
  {
  }

  lemma ConfigurationRefused(f: Fields, name: string, value: string)
    requires value != ""
    ensures Configuration(f, name, value) == Bad <==>
            if IsFlag(name) || name == "compressed" then value[0] != '1' && value[0] != '0'
            else if IsNumber(name) || name == "db_lorder" || name == "heap_bytes" || name == "heap_gbytes" then
              GetLong(value) == None
            else name != "re_pad"
    ensures !Configuration(f, name, value).Outside?
  {
    hide Configuration, IsNumber, IsFlag, GetLong;
    if IsNumber(name) {
      NumberIsConfigured(f, name, value);
      if IsFlag(name) { FlagIsNoNumber(name); }
      NumberIsNoSwitch(name);
    } else if IsFlag(name) {
      FlagIsConfigured(f, name, value);
    } else {
      RestIsConfigured(f, name, value);
    }
  }

  /** What the model does not follow: partition keys, unfinished escapes, and versions that no int holds. */
  predicate IsOutside(name: string, value: string) {
    || ((name == "database" || name == "subdatabase") && !Complete(value))
    || (name == "nparts" && value != "")
    || (name == "VERSION" && value != "" && !(-0x8000_0000 <= Atoi(value) < 0x8000_0000))
  }

  lemma AssignRefused(f: Fields, name: string, value: string)
    requires name != "" && value != "" && !IsName(name)
    ensures Assign(f, name, value) == Bad <==> IsRefused(name, value)
    ensures Assign(f, name, value).Done? <==> name == "HEADER"
    ensures Assign(f, name, value) == Outside <==> IsOutside(name, value)
  {
    hide Configuration, IsNumber, IsFlag, GetLong, Atoi, Complete, Unescape;
    ConfigurationRefused(f, name, value);
    if IsFlag(name) || IsNumber(name) { NoTwoMeanings(name); }
    if name == "re_pad" { NeitherNumberNorFlag(name); }
  }

  lemma NoAssignment(f: Fields, line: string)
    requires '=' !in line
    ensures HeaderLine(f, line) == Bad
  {
    hide Find, Assign, Name;
    FindIs(line, '=', 0, |line|);
  }

  lemma SplitsAtEquals(f: Fields, name: string, value: string)
    requires '=' !in name
    ensures HeaderLine(f, name + "=" + value) ==
            if name == "" then Bad else if IsName(name) then Name(f, value)
            else if value == "" then Bad else Assign(f, name, value)
  {
    hide Name, Assign, Find;
    var line := name + "=" + value;
    FindIs(line, '=', 0, |name|);
    assert line[..|name|] == name && line[|name| + 1..] == value;
  }

  /**
   * Every line is refused, ends the header, or is beyond the model, in exactly these cases; all others
   * go on. A line without an equals sign is refused.
   */
  lemma RefusedExactly(f: Fields, line: string, name: string, value: string)
    requires '=' !in name
    ensures '=' !in line ==> HeaderLine(f, line) == Bad
    ensures HeaderLine(f, name + "=" + value) == Bad <==> IsRefused(name, value)
    ensures HeaderLine(f, name + "=" + value).Done? <==> name == "HEADER" && value != ""
    ensures HeaderLine(f, name + "=" + value) == Outside <==> IsOutside(name, value)
  {
    hide HeaderLine, Assign, Complete, Unescape, Atoi, GetLong, IsFlag, IsNumber;
    if '=' !in line { NoAssignment(f, line); }
    SplitsAtEquals(f, name, value);
    if name != "" && value != "" && !IsName(name) { AssignRefused(f, name, value); }
  }

  // ---------- a whole header ----------

  function SettingsText(ss: seq<Setting>): string {
    if ss == [] then "" else SettingText(ss[0]) + "\n" + SettingsText(ss[1..])
  }

  /** Each line in turn. */
  function Effects(ss: seq<Setting>, f: Fields): Fields {
    if ss == [] then f else Effects(ss[1..], Effect(ss[0], f))
  }

  predicate AllWellFormed(ss: seq<Setting>) {
    forall k :: 0 <= k < |ss| ==> WellFormed(ss[k])
  }

  predicate AllTaken(ss: seq<Setting>) {
    forall k :: 0 <= k < |ss| ==> !Refused(ss[k])
  }

  lemma CleanBoth(a: string, b: string)
    requires Clean(a) && Clean(b)
    ensures Clean(a + b)
  {
  }

  lemma CleanDecimal(n: nat)
    ensures Clean(Decimal(n))
  {
    hide Decimal;
    DecimalIsRead(n, "");
    forall k | 0 <= k < |Decimal(n)| ensures Decimal(n)[k] != '\n' && Decimal(n)[k] != '\0' {
      assert IsDigit(Decimal(n)[k]);
    }
  }

  lemma CleanByte(isprint: byte -> bool, b: byte)
    requires isprint(10) ==> b != 10
    requires isprint(0) ==> b != 0
    ensures Clean(PrintByte(isprint, b))
  {
    HexPairDigits(b);
    assert b as char == '\n' <==> b == 10;
    assert b as char == '\0' <==> b == 0;
  }

  lemma {:induction false} CleanName(isprint: byte -> bool, bytes: seq<byte>)
    requires (isprint(10) ==> 10 !in bytes) && (isprint(0) ==> 0 !in bytes)
    ensures Clean(PrintText(isprint, bytes))
  {
    hide PrintByte;
    if bytes != [] {
      CleanByte(isprint, bytes[0]);
      CleanName(isprint, bytes[1..]);
      CleanBoth(PrintByte(isprint, bytes[0]), PrintText(isprint, bytes[1..]));
    }
  }

  lemma CleanValue(s: Setting)
    requires WellFormed(s)
    ensures Clean(Value(s))
  {
    hide Decimal, PrintText, IsNumber, IsFlag;
    match s
    case VersionIs(n) => CleanDecimal(n);
    case NumberIs(_, n) => CleanDecimal(n);
    case LorderIs(n) => CleanDecimal(n);
    case HeapBytesAre(n) => CleanDecimal(n);
    case HeapGbytesAre(n) => CleanDecimal(n);
    case NameIs(_, isprint, bytes) => CleanName(isprint, bytes);
    case _ =>
  }

  lemma CleanNumberKeyword(name: string)
    requires IsNumber(name)
    ensures Clean(name)
  {
  }

  lemma CleanFlagKeyword(name: string)
    requires IsFlag(name)
    ensures Clean(name)
  {
  }

  lemma CleanKeyword(s: Setting)
    requires WellFormed(s)
    ensures Clean(Keyword(s))
  {
    hide IsNumber, IsFlag;
    match s
    case NumberIs(keyword, _) => CleanNumberKeyword(keyword);
    case FlagIs(keyword, _, _) => CleanFlagKeyword(keyword);
    case _ =>
  }

  lemma CleanSetting(s: Setting)
    requires WellFormed(s)
    ensures Clean(SettingText(s))
  {
    hide WellFormed, Keyword, Value, Clean;
    CleanKeyword(s);
    CleanValue(s);
    CleanLine(Keyword(s), Value(s));
  }

  lemma SettingsStep(ss: seq<Setting>, rest: string)
    requires ss != []
    ensures SettingsText(ss) + rest == SettingText(ss[0]) + "\n" + (SettingsText(ss[1..]) + rest)
    ensures |SettingsText(ss)| == |SettingText(ss[0])| + 1 + |SettingsText(ss[1..])|
  {
    hide SettingText;
  }

  lemma EndIsRead(f: Fields)
    ensures HeaderLine(f, "HEADER=END") == Done(f) && Clean("HEADER=END")
  {
    hide HeaderLine;
    EndLine(f);
  }

  /** One line and what follows it, without a zero anywhere. */
  lemma NoZeroOnLine(input: string, pos: nat, line: string, end: nat)
    requires pos + |line| < end <= |input| && input[pos..pos + |line|] == line && Clean(line) && input[pos + |line|] == '\n'
    requires NoZero(input, pos + |line| + 1, end)
    ensures NoZero(input, pos, end)
  {
    forall k | pos <= k < end ensures input[k] != '\0' {
      if k < pos + |line| { assert input[k] == input[pos..pos + |line|][k - pos]; }
    }
  }

  lemma EndOfHeader(input: string, pos: nat, rest: string, f: Fields, n: nat)
    requires pos <= |input| && input[pos..] == "HEADER=END\n" + rest
    ensures pos + 11 <= |input| && input[pos + 11..] == rest && NoZero(input, pos, pos + 11)
    ensures RunInput(input, pos, f, n) == Parsed(f, pos + 11, n + 1)
  {
    hide RunInput, HeaderLine, LineEnd, CString;
    EndIsRead(f);
    assert "HEADER=END" + "\n" + rest == "HEADER=END\n" + rest;
    RunLine(input, pos, "HEADER=END", rest);
    InputStep(input, pos, f, n);
    assert forall k :: 0 <= k < 11 ==> input[pos + k] == input[pos..][k] == "HEADER=END\n"[k];
  }

  lemma NothingSet()
    ensures SettingsText([]) == ""
  {
  }

  lemma AllTakenStep(ss: seq<Setting>)
    requires ss != []
    ensures AllTaken(ss) <==> !Refused(ss[0]) && AllTaken(ss[1..])
  {
    hide Refused;
    var more := ss[1..];
    assert forall k :: 0 < k < |ss| ==> ss[k] == more[k - 1];
    assert forall k :: 0 <= k < |more| ==> more[k] == ss[k + 1];
  }

  /** No lines and any number of them, in any order: each sets what it says, unless one is refused. */
  lemma {:induction false} HeaderIsRead(input: string, pos: nat, ss: seq<Setting>, rest: string, f: Fields, n: nat)
    requires pos <= |input| && input[pos..] == SettingsText(ss) + ("HEADER=END\n" + rest) && AllWellFormed(ss)
    ensures var end := pos + |SettingsText(ss)| + 11;
            && end <= |input| && input[end..] == rest && NoZero(input, pos, end)
            && if AllTaken(ss) then RunInput(input, pos, f, n) == Parsed(Effects(ss, f), end, n + |ss| + 1)
               else RunInput(input, pos, f, n) == Failed || RunInput(input, pos, f, n) == Beyond
    decreases |ss|
  {
    hide RunInput, HeaderLine, SettingsText, SettingText, Refused, Effect, WellFormed, LineEnd, CString, NoZero;
    if ss == [] {
      NothingSet();
      assert input[pos..] == "HEADER=END\n" + rest;
      EndOfHeader(input, pos, rest, f, n);
    } else {
      var s, line, more := ss[0], SettingText(ss[0]), ss[1..];
      SettingsStep(ss, "HEADER=END\n" + rest);
      CleanSetting(s);
      RunLine(input, pos, line, SettingsText(more) + ("HEADER=END\n" + rest));
      InputStep(input, pos, f, n);
      SettingIsRead(f, s);
      HeaderIsRead(input, pos + |line| + 1, more, rest, Effect(s, f), n + 1);
      NoZeroOnLine(input, pos, line, pos + |SettingsText(ss)| + 11);
      AllTakenStep(ss);
    }
  }

  // ---------- the header of a database ----------

  /** What a header says about a database, the other settings in any order. */
  datatype Stated = Stated(version: nat, escaped: bool, name: Option<seq<byte>>, dbtype: DbType,
                           heapGbytes: Option<nat>, heapBytes: Option<nat>, settings: seq<Setting>, keys: Option<bool>)

  /** A line that makes one call or, as a flag that is off, none. */
  predicate IsCall(s: Setting) {
    s.NumberIs? || s.LorderIs? || s.FlagIs? || s.CompressedIs? || s.PadIs?
  }

  /** The name is a C string that stays on its line, and the settings are lines of their own. */
  predicate WellStated(d: Stated, isprint: byte -> bool) {
    && (d.name.Some? ==> 0 !in d.name.value && !(isprint(10) && 10 in d.name.value))
    && forall k :: 0 <= k < |d.settings| ==> IsCall(d.settings[k]) && WellFormed(d.settings[k])
  }

  /** A line that may be missing. */
  function IfThere(there: bool, s: Setting): seq<Setting> {
    if there then [s] else []
  }

  function FirstLines(d: Stated, isprint: byte -> bool): seq<Setting> {
    [] + IfThere(true, VersionIs(d.version)) + IfThere(true, FormatIs(d.escaped))
    + IfThere(d.name.Some?, NameIs(false, isprint, if d.name.Some? then d.name.value else []))
    + IfThere(true, TypeIs(d.dbtype))
  }

  function HeapLines(d: Stated, isprint: byte -> bool): seq<Setting> {
    FirstLines(d, isprint)
    + IfThere(d.heapGbytes.Some?, HeapGbytesAre(if d.heapGbytes.Some? then d.heapGbytes.value else 0))
    + IfThere(d.heapBytes.Some?, HeapBytesAre(if d.heapBytes.Some? then d.heapBytes.value else 0))
  }

  function Lines(d: Stated, isprint: byte -> bool): seq<Setting> {
    HeapLines(d, isprint)
    + d.settings
    + IfThere(d.keys.Some?, KeysAre(d.keys.Some? && d.keys.value))
  }

  function StatedText(d: Stated, isprint: byte -> bool): string {
    SettingsText(Lines(d, isprint)) + "HEADER=END\n"
  }

  predicate FitsLong(n: Option<nat>) {
    n.Some? ==> n.value <= 0x7FFF_FFFF_FFFF_FFFF
  }

  predicate Acceptable(d: Stated) {
    && d.version <= 3 && d.dbtype != Unknown && FitsLong(d.heapGbytes) && FitsLong(d.heapBytes)
    && forall k :: 0 <= k < |d.settings| ==> !Refused(d.settings[k])
  }

  function Calls(ss: seq<Setting>): seq<Call> {
    if ss == [] then [] else CallOf(ss[0]) + Calls(ss[1..])
  }

  function Low32(n: Option<nat>): word {
    if n.Some? then n.value % 0x1_0000_0000 else 0
  }

  /** What a loader has after the header: all that was stated, and both parts of the heap's size in one call. */
  function AsStated(d: Stated): Fields {
    var gbytes, bytes := Low32(d.heapGbytes), Low32(d.heapBytes);
    var heapsize := if gbytes != 0 || bytes != 0 then [SetHeapsize(gbytes, bytes)] else [];
    Fields(d.dbtype, d.escaped, if d.keys.None? then -1 else if d.keys.value then 1 else 0, d.name, d.version,
           Calls(d.settings) + heapsize, bytes, gbytes)
  }

  lemma {:induction false} EffectsBoth(a: seq<Setting>, b: seq<Setting>, f: Fields)
    ensures Effects(a + b, f) == Effects(b, Effects(a, f))
  {
    hide Effect;
    if a == [] {
      assert a + b == b;
    } else {
      assert (a + b)[1..] == a[1..] + b;
      EffectsBoth(a[1..], b, Effect(a[0], f));
    }
  }

  lemma EffectOfOne(s: Setting, f: Fields)
    ensures Effects([s], f) == Effect(s, f) && Effects([], f) == f
  {
    hide Effect;
    assert [s][1..] == [];
  }

  lemma {:induction false} CallsAreMade(ss: seq<Setting>, f: Fields)
    requires forall k :: 0 <= k < |ss| ==> IsCall(ss[k])
    ensures Effects(ss, f) == f.(calls := f.calls + Calls(ss))
  {
    hide CallOf;
    if ss == [] {
      assert f.calls + [] == f.calls;
    } else {
      CallsAreMade(ss[1..], Effect(ss[0], f));
      assert f.calls + CallOf(ss[0]) + Calls(ss[1..]) == f.calls + (CallOf(ss[0]) + Calls(ss[1..]));
    }
  }

  lemma IfThereIsRead(there: bool, s: Setting, f: Fields)
    ensures Effects(IfThere(there, s), f) == if there then Effect(s, f) else f
    ensures AllTaken(IfThere(there, s)) <==> (there ==> !Refused(s))
    ensures AllWellFormed(IfThere(there, s)) <==> (there ==> WellFormed(s))
  {
    hide Effect, Refused, WellFormed;
    EffectOfOne(s, f);
    assert [s][0] == s;
  }

  lemma AllOfBoth(a: seq<Setting>, b: seq<Setting>)
    ensures AllTaken(a + b) <==> AllTaken(a) && AllTaken(b)
    ensures AllWellFormed(a + b) <==> AllWellFormed(a) && AllWellFormed(b)
  {
    hide Refused, WellFormed;
    assert forall k :: 0 <= k < |a| ==> (a + b)[k] == a[k];
    assert forall k :: 0 <= k < |b| ==> (a + b)[|a| + k] == b[k];
  }

  /** Some lines and then one that may be missing. */
  lemma AndIfThere(a: seq<Setting>, there: bool, s: Setting, f: Fields)
    ensures var g, both := Effects(a, f), a + IfThere(there, s);
            && Effects(both, f) == (if there then Effect(s, g) else g)
            && (AllTaken(both) <==> AllTaken(a) && (there ==> !Refused(s)))
            && (AllWellFormed(both) <==> AllWellFormed(a) && (there ==> WellFormed(s)))
  {
    hide Effect, Effects, AllTaken, AllWellFormed, IfThere, Refused, WellFormed;
    EffectsBoth(a, IfThere(there, s), f);
    AllOfBoth(a, IfThere(there, s));
    IfThereIsRead(there, s, Effects(a, f));
  }

  lemma NoLines(f: Fields)
    ensures Effects([], f) == f && AllTaken([]) && AllWellFormed([])
  {
  }

  lemma FirstLinesAreRead(d: Stated, isprint: byte -> bool, f: Fields)
    requires WellStated(d, isprint)
    ensures var lines := FirstLines(d, isprint);
            && Effects(lines, f) == f.(version := d.version, checkprint := d.escaped, dbtype := d.dbtype,
                                       subdb := if d.name.Some? then d.name else f.subdb)
            && (AllTaken(lines) <==> d.version <= 3 && d.dbtype != Unknown)
            && AllWellFormed(lines)
  {
    hide Effects, AllTaken, AllWellFormed, IfThere, CBytes;
    if d.name.Some? { CBytesKeepAll(d.name.value); }
    NoLines(f);
    AndIfThere([], true, VersionIs(d.version), f);
    AndIfThere([] + IfThere(true, VersionIs(d.version)), true, FormatIs(d.escaped), f);
    var lines := [] + IfThere(true, VersionIs(d.version)) + IfThere(true, FormatIs(d.escaped));
    var name := NameIs(false, isprint, if d.name.Some? then d.name.value else []);
    AndIfThere(lines, d.name.Some?, name, f);
    AndIfThere(lines + IfThere(d.name.Some?, name), true, TypeIs(d.dbtype), f);
  }

  lemma HeapLinesAreRead(d: Stated, isprint: byte -> bool, f: Fields)
    requires WellStated(d, isprint)
    ensures var lines := HeapLines(d, isprint);
            && Effects(lines, f) == f.(version := d.version, checkprint := d.escaped, dbtype := d.dbtype,
                                       subdb := if d.name.Some? then d.name else f.subdb,
                                       heapGbytes := if d.heapGbytes.Some? then Low32(d.heapGbytes) else f.heapGbytes,
                                       heapBytes := if d.heapBytes.Some? then Low32(d.heapBytes) else f.heapBytes)
            && (AllTaken(lines) <==>
                d.version <= 3 && d.dbtype != Unknown && FitsLong(d.heapGbytes) && FitsLong(d.heapBytes))
            && AllWellFormed(lines)
  {
    hide Effects, AllTaken, AllWellFormed, IfThere, FirstLines, WellStated;
    var lines := FirstLines(d, isprint);
    FirstLinesAreRead(d, isprint, f);
    var gbytes := if d.heapGbytes.Some? then d.heapGbytes.value else 0;
    AndIfThere(lines, d.heapGbytes.Some?, HeapGbytesAre(gbytes), f);
    lines := lines + IfThere(d.heapGbytes.Some?, HeapGbytesAre(gbytes));
    AndIfThere(lines, d.heapBytes.Some?, HeapBytesAre(if d.heapBytes.Some? then d.heapBytes.value else 0), f);
  }

  lemma SettingsAreRead(lines: seq<Setting>, d: Stated, isprint: byte -> bool, f: Fields)
    requires WellStated(d, isprint)
    ensures var g := Effects(lines, f);
            && Effects(lines + d.settings, f) == g.(calls := g.calls + Calls(d.settings))
            && (AllTaken(lines + d.settings) <==>
                AllTaken(lines) && forall k :: 0 <= k < |d.settings| ==> !Refused(d.settings[k]))
            && (AllWellFormed(lines) ==> AllWellFormed(lines + d.settings))
  {
    hide Effects, WellFormed, Refused, Calls;
    EffectsBoth(lines, d.settings, f);
    AllOfBoth(lines, d.settings);
    CallsAreMade(d.settings, Effects(lines, f));
  }

  /** A header is accepted exactly if its numbers are in range, and then sets exactly what it states. */
  lemma StatedIsRead(d: Stated, isprint: byte -> bool, version: int)
    requires WellStated(d, isprint)
    ensures AllTaken(Lines(d, isprint)) <==> Acceptable(d)
    ensures AllWellFormed(Lines(d, isprint))
    ensures Finish(Effects(Lines(d, isprint), Blank(None, version))) == AsStated(d)
  {
    hide Effects, AllTaken, AllWellFormed, IfThere, HeapLines, Calls, WellStated, FitsLong;
    var f := Blank(None, version);
    HeapLinesAreRead(d, isprint, f);
    SettingsAreRead(HeapLines(d, isprint), d, isprint, f);
    AndIfThere(HeapLines(d, isprint) + d.settings, d.keys.Some?, KeysAre(d.keys.Some? && d.keys.value), f);
    assert [] + Calls(d.settings) == Calls(d.settings) == Calls(d.settings) + [];
  }

  lemma TextAndRest(d: Stated, isprint: byte -> bool, rest: string)
    ensures StatedText(d, isprint) + rest == SettingsText(Lines(d, isprint)) + ("HEADER=END\n" + rest)
    ensures |StatedText(d, isprint)| == |SettingsText(Lines(d, isprint))| + 11
  {
    hide SettingsText, Lines;
  }

  /** Reading the header of any such description gives exactly what it states, whatever follows it. */
  lemma StatedHeaderIsRead(input: string, pos: nat, d: Stated, isprint: byte -> bool, rest: string, version: int, n: nat)
    requires pos <= |input| && input[pos..] == StatedText(d, isprint) + rest && WellStated(d, isprint)
    ensures var r, end := RunInput(input, pos, Blank(None, version), n), pos + |StatedText(d, isprint)|;
            && end <= |input| && NoZero(input, pos, end) && input[end..] == rest
            && if Acceptable(d) then
                 && r.Parsed? && r.end == end && r.lines == n + |Lines(d, isprint)| + 1
                 && Finish(r.fields) == AsStated(d)
               else r == Failed || r == Beyond
  {
    hide RunInput, SettingsText, Lines, WellStated, Acceptable, AllTaken, AllWellFormed, Effects, NoZero, StatedText, AsStated,
         Finish;
    TextAndRest(d, isprint, rest);
    StatedIsRead(d, isprint, version);
    HeaderIsRead(input, pos, Lines(d, isprint), rest, Blank(None, version), n);
  }
}
