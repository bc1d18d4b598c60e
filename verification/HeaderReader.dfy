/** db_load: reading a header while saving its lines, and reading it again from what was saved. */
module HeaderReaders {
  import opened Options
  import opened Words
  import opened Text
  import opened Loaders
  import opened Load
  import opened Headers

  /** A zero ends the bytes of a C string, wherever its memory ends. */
  lemma {:induction false} CBytesStop(bytes: seq<byte>, memory: seq<byte>)
    requires |bytes| < |memory| && memory[..|bytes|] == bytes && memory[|bytes|] == 0
    ensures CBytes(memory) == CBytes(bytes)
  {
    if bytes != [] {
      assert memory[..|bytes|][0] == memory[0];
      assert memory[1..][..|bytes| - 1] == memory[..|bytes|][1..];
      CBytesStop(bytes[1..], memory[1..]);
    }
  }

  /** The middle of the loop of rheader: what one line says. */
  method TakeLine(f: Fields, line: string) returns (o: Outcome)
    ensures o == HeaderLine(f, line)
  {
    hide Assign, Complete, Unescape, CBytes, Find;
    var eq := Find(line, '=', 0);
    if eq == |line| || eq == 0 {
      return Bad;
    }
    var name, value := line[..eq], line[eq + 1..];
    if IsName(name) {
      if !Complete(value) {
        return Outside;
      }
      var ret, outstr := Convprintable(value);
      if ret != 0 {
        return Bad;
      }
      CBytesStop(Unescape(value).value, outstr[..]);
      return More(f.(subdb := Some(CBytes(outstr[..]))));
    }
    if value == "" {
      return Bad;
    }
    return Assign(f, name, value);
  }

  lemma SavedFits(saved: string, input: string, pos: nat, end: nat)
    requires pos <= end <= |input| && IsSaved(saved, input, pos, end)
    ensures end - pos <= |saved|
  {
  }

  lemma SavedStep(saved: string, start: nat, f: Fields, lines: nat)
    requires start <= |saved|
    ensures var end := Find(saved, '\0', start);
            RunSaved(saved, start, f, lines) ==
            if end == |saved| then Cut
            else match HeaderLine(f, saved[start..end])
              case Bad => Failed
              case Outside => Beyond
              case Done(g) => Parsed(g, end + 1, lines + 1)
              case More(g) => RunSaved(saved, end + 1, g, lines + 1)
  {
    hide HeaderLine, Find;
  }

  lemma InputStep(input: string, pos: nat, f: Fields, lines: nat)
    requires pos <= |input|
    ensures var end := LineEnd(input, pos);
            RunInput(input, pos, f, lines) ==
            if end == |input| then Cut
            else match HeaderLine(f, CString(input[pos..end]))
              case Bad => Failed
              case Outside => Beyond
              case Done(g) => Parsed(g, end + 1, lines + 1)
              case More(g) => RunInput(input, end + 1, g, lines + 1)
  {
    hide HeaderLine, LineEnd, CString;
  }

  lemma NothingSaved(saved: string, input: string, pos: nat)
    requires pos <= |input|
    ensures IsSaved(saved, input, pos, pos)
  {
  }

  class HeaderReader {
    const l: Loader
    var hdrbuf: array?<char>
    var origline: nat

    ghost predicate Valid()
      reads this, l
    {
      l.Valid()
    }

    constructor (l: Loader)
      requires l.Valid()
      ensures Valid() && this.l == l && hdrbuf == null
    {
      this.l := l;
      hdrbuf, origline := null, 0;
    }

    /** realloc(hdrbuf, buflen *= 2) */
    method Double()
      requires hdrbuf != null && hdrbuf.Length > 0
      modifies this`hdrbuf
      ensures hdrbuf != null && fresh(hdrbuf) && hdrbuf.Length == 2 * old(hdrbuf.Length)
      ensures hdrbuf[..old(hdrbuf.Length)] == old(hdrbuf[..])
    {
      var bigger := new char[2 * hdrbuf.Length];
      forall k | 0 <= k < hdrbuf.Length {
        bigger[k] := hdrbuf[k];
      }
      hdrbuf := bigger;
    }

    /** If the buffer is too small, double it. */
    method MakeRoom(n: nat)
      requires hdrbuf != null && 0 < hdrbuf.Length && n <= hdrbuf.Length
      modifies this`hdrbuf
      ensures hdrbuf != null && (hdrbuf == old(hdrbuf) || fresh(hdrbuf))
      ensures n < hdrbuf.Length && old(hdrbuf.Length) <= hdrbuf.Length
      ensures forall k :: 0 <= k < n ==> hdrbuf[k] == old(hdrbuf[k])
    {
      ghost var before := hdrbuf[..];
      if n == hdrbuf.Length {
        Double();
        assert forall k :: 0 <= k < n ==> hdrbuf[..n][k] == before[k];
      }
    }

    /**
     * The inner loop of rheader: a line of any length goes to the end of the buffer, which doubles
     * whenever it is full, so there is room for each character and for the zero after the last.
     */
    method SaveLine(start: nat) returns (linelen: nat, eof: bool)
      requires Valid() && hdrbuf != null && 0 < hdrbuf.Length && start <= hdrbuf.Length
      requires start <= l.pos && IsSaved(hdrbuf[..], l.input, l.pos - start, l.pos)
      modifies this`hdrbuf, hdrbuf, l`pos
      ensures Valid() && hdrbuf != null && (hdrbuf == old(hdrbuf) || fresh(hdrbuf)) && hdrbuf.Length >= old(hdrbuf.Length)
      ensures eof <==> LineEnd(l.input, old(l.pos)) == |l.input|
      ensures eof ==> l.pos == |l.input|
      ensures !eof ==> l.pos == LineEnd(l.input, old(l.pos)) + 1 && linelen == l.pos - old(l.pos)
      ensures !eof ==> IsSaved(hdrbuf[..], l.input, old(l.pos) - start, l.pos)
    {
      hide LineEnd;
      ghost var at := l.pos;
      linelen := 0;
      while true
        invariant Valid() && hdrbuf != null && (hdrbuf == old(hdrbuf) || fresh(hdrbuf))
        invariant hdrbuf.Length >= old(hdrbuf.Length) > 0
        invariant start + linelen <= hdrbuf.Length && l.pos == at + linelen <= LineEnd(l.input, at)
        invariant IsSaved(hdrbuf[..], l.input, at - start, l.pos)
        decreases |l.input| - l.pos
      {
        var ch := l.GetChar();
        if ch == EOF {
          return linelen, true;
        }
        MakeRoom(linelen + start);
        if ch == Some('\n') {
          break;
        }
        hdrbuf[start + linelen] := ch.value;
        linelen := linelen + 1;
      }
      hdrbuf[start + linelen] := '\0';
      linelen := linelen + 1;
      return linelen, false;
    }

    /** Does the input end before its first line does? */
    ghost predicate NoHeader(pos: nat)
      requires pos <= |l.input|
    {
      LineEnd(l.input, pos) == |l.input|
    }

    /** The next line as a C string, from the input or from what was saved. */
    method NextLine(hdr: bool, start: nat, ghost from: nat) returns (line: string, linelen: nat, eof: bool)
      requires Valid() && hdrbuf != null && 0 < hdrbuf.Length && start <= hdrbuf.Length
      requires hdr ==> Find(hdrbuf[..], '\0', start) < hdrbuf.Length
      requires !hdr ==> from + start == l.pos && IsSaved(hdrbuf[..], l.input, from, l.pos)
      modifies this`hdrbuf, l`pos, if hdr then {} else {hdrbuf}
      ensures Valid() && hdrbuf != null && hdrbuf.Length > 0
      ensures hdr ==> !eof && hdrbuf == old(hdrbuf) && hdrbuf[..] == old(hdrbuf[..]) && l.pos == old(l.pos)
      ensures hdr ==> var stop := Find(hdrbuf[..], '\0', start);
                      line == hdrbuf[start..stop] && start + linelen == stop + 1 <= hdrbuf.Length
      ensures !hdr ==> hdrbuf == old(hdrbuf) || fresh(hdrbuf)
      ensures !hdr ==> eof == NoHeader(old(l.pos)) && old(l.pos) <= l.pos
      ensures !hdr && !eof ==>
                && l.pos == LineEnd(l.input, old(l.pos)) + 1 && from + start + linelen == l.pos
                && line == CString(l.input[old(l.pos)..l.pos - 1])
                && start + linelen <= hdrbuf.Length && IsSaved(hdrbuf[..], l.input, from, l.pos)
    {
      hide LineEnd, Find, CString, IsSaved;
      ghost var at := l.pos;
      eof := false;
      if !hdr {
        linelen, eof := SaveLine(start);
        if eof {
          return "", linelen, true;
        }
        LineIsSaved(l.input, from, at, l.pos, hdrbuf[..]);
        SavedFits(hdrbuf[..], l.input, from, l.pos);
      } else {
        linelen := Find(hdrbuf[..], '\0', start) - start + 1;
      }
      line := hdrbuf[start..Find(hdrbuf[..], '\0', start)];
    }

    /** The header from here on: from pos of the input, or from start of what was saved. */
    ghost function Rest(hdr: bool, start: nat, f: Fields): Run
      reads this`hdrbuf, l`pos, l`lineno, hdrbuf
      requires l.pos <= |l.input| && hdrbuf != null && start <= hdrbuf.Length
    {
      if hdr then RunSaved(hdrbuf[..], start, f, l.lineno) else RunInput(l.input, l.pos, f, l.lineno)
    }

    /** One turn of the loop of rheader. */
    method TakeNext(hdr: bool, start: nat, f: Fields, ghost from: nat) returns (eof: bool, next: nat, o: Outcome)
      requires Valid() && hdrbuf != null && 0 < hdrbuf.Length && start <= hdrbuf.Length
      requires hdr ==> Rest(hdr, start, f) != Cut
      requires !hdr ==> from + start == l.pos && IsSaved(hdrbuf[..], l.input, from, l.pos)
      modifies this`hdrbuf, l`pos, l`lineno, if hdr then {} else {hdrbuf}
      ensures Valid() && hdrbuf != null && hdrbuf.Length > 0 && l.lineno == old(l.lineno) + 1
      ensures hdr ==> !eof && hdrbuf == old(hdrbuf) && hdrbuf[..] == old(hdrbuf[..]) && l.pos == old(l.pos)
      ensures !hdr ==> (hdrbuf == old(hdrbuf) || fresh(hdrbuf)) && eof == NoHeader(old(l.pos)) && old(l.pos) <= l.pos
      ensures eof ==> old(Rest(hdr, start, f)) == Cut
      ensures !eof ==> start < next <= hdrbuf.Length
      ensures !eof && !hdr ==> from + next == l.pos > old(l.pos) && IsSaved(hdrbuf[..], l.input, from, l.pos)
      ensures !eof ==>
                match o
                case Bad => old(Rest(hdr, start, f)) == Failed
                case Outside => old(Rest(hdr, start, f)) == Beyond
                case Done(g) => g == f && old(Rest(hdr, start, f)) == Parsed(f, if hdr then next else l.pos, l.lineno)
                case More(g) => old(Rest(hdr, start, f)) == Rest(hdr, next, g)
    {
      hide LineEnd, HeaderLine, Find, CString, IsSaved, RunInput, RunSaved;
      if hdr { SavedStep(hdrbuf[..], start, f, l.lineno); } else { InputStep(l.input, l.pos, f, l.lineno); }
      l.lineno := l.lineno + 1;
      var line, linelen;
      line, linelen, eof := NextLine(hdr, start, from);
      next, o := start + linelen, Bad;
      if !eof {
        o := TakeLine(f, line);
        if o.Done? { DoneIsDone(f, f, line); }
      }
    }

    /** The loop of rheader over the lines. */
    method TakeLines(hdr: bool, blank: Fields) returns (ret: int, f: Fields)
      requires Valid() && hdrbuf != null && 0 < hdrbuf.Length && blank.version == l.version
      requires hdr ==> Rest(hdr, 0, blank) != Cut
      modifies this`hdrbuf, l, if hdr then {} else {hdrbuf}
      ensures Valid() && hdrbuf != null && l.endodata == old(l.endodata) && old(l.pos) <= l.pos
      ensures match old(Rest(hdr, 0, blank))
              case Parsed(g, end, lines) =>
                && ret == 0 && f == g && l.version == g.version && l.lineno == lines && l.endofile == old(l.endofile)
                && (!hdr ==> l.pos == end && IsSaved(hdrbuf[..], l.input, old(l.pos), end))
              case Cut => if NoHeader(old(l.pos)) then ret == 0 && l.endofile else ret == 1
              case Failed => ret == 1
              case Beyond => ret == 1
      ensures hdr ==> hdrbuf == old(hdrbuf) && hdrbuf[..] == old(hdrbuf[..]) && l.pos == old(l.pos)
      ensures !hdr ==> hdrbuf == old(hdrbuf) || fresh(hdrbuf)
    {
      hide IsSaved, Rest, NoHeader;
      ghost var from := l.pos;
      ghost var run := Rest(hdr, 0, blank);
      NothingSaved(hdrbuf[..], l.input, from);
      f := blank;
      var start: nat, first := 0, true;
      while true
        invariant Valid() && hdrbuf != null && (hdrbuf == old(hdrbuf) || (!hdr && fresh(hdrbuf)))
        invariant l.endodata == old(l.endodata) && l.endofile == old(l.endofile) && from <= l.pos
        invariant 0 < hdrbuf.Length && start <= hdrbuf.Length && f.version == l.version
        invariant run == Rest(hdr, start, f) && (hdr ==> run != Cut)
        invariant hdr ==> l.pos == from && hdrbuf[..] == old(hdrbuf[..])
        invariant !hdr ==> start == l.pos - from && IsSaved(hdrbuf[..], l.input, from, l.pos)
        invariant first ==> l.pos == from
        invariant !first && !hdr ==> !NoHeader(from)
        decreases if hdr then hdrbuf.Length - start else |l.input| - l.pos
      {
        var eof, next, o := TakeNext(hdr, start, f, from);
        if eof {
          if !first {
            return 1, f;
          }
          l.endofile := true;
          return 0, f;
        }
        start := next;
        match o {
          case Bad =>
            return 1, f;
          case Outside =>
            return 1, f;
          case Done(g) =>
            f := g;
            break;
          case More(g) =>
            f := g;
            l.version := g.version;
        }
        first := false;
      }
      ret := 0;
    }

    /**
     * rheader. The first time it reads the input and saves what it reads, the second time it reads
     * what was saved and takes nothing from the input.
     */
    method Rheader(subdb: Option<seq<byte>>) returns (ret: int, f: Fields)
      requires Valid()
      requires hdrbuf != null ==> RunSaved(hdrbuf[..], 0, Blank(subdb, l.version), origline) != Cut
      modifies this, l
      ensures Valid() && l.endodata == old(l.endodata) && old(l.pos) <= l.pos
      ensures match old(if hdrbuf == null then RunInput(l.input, l.pos, Blank(subdb, l.version), l.lineno)
                        else RunSaved(hdrbuf[..], 0, Blank(subdb, l.version), origline))
              case Parsed(g, end, lines) =>
                ret == 0 && f == Finish(g) && l.version == g.version && l.lineno == lines && l.endofile == old(l.endofile)
              case Cut =>
                if NoHeader(old(l.pos)) then ret == 0 && l.endofile else ret == 1
              case Failed => ret == 1
              case Beyond => ret == 1
      ensures old(hdrbuf == null) ==>
                match old(RunInput(l.input, l.pos, Blank(subdb, l.version), l.lineno))
                case Parsed(g, end, lines) =>
                  && l.pos == end && hdrbuf != null && fresh(hdrbuf) && origline == old(l.lineno)
                  && IsSaved(hdrbuf[..], l.input, old(l.pos), end)
                case _ => true
      ensures old(hdrbuf != null) ==>
                hdrbuf == old(hdrbuf) && hdrbuf[..] == old(hdrbuf[..]) && origline == old(origline) && l.pos == old(l.pos)
    {
      hide LineEnd, RunInput, RunSaved, IsSaved;
      var hdr := hdrbuf != null;
      if !hdr {
        hdrbuf := new char[4096];
        origline := l.lineno;
      } else {
        l.lineno := origline;
        SavedStep(hdrbuf[..], 0, Blank(subdb, l.version), origline);
      }
      ret, f := TakeLines(hdr, Blank(subdb, l.version));
      if ret == 0 {
        f := Finish(f);
      }
    }
  }
}
