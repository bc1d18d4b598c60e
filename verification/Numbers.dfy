/** Decimal numbers: printf("%lu"), strtol and strtoul, and the checks around them. */
module Numbers {
  import opened Options

  const ULONG_RANGE := 0x1_0000_0000_0000_0000
  const LONG_MAX := 0x7FFF_FFFF_FFFF_FFFF

  const DIGITS := "0123456789"

  function Decimal(n: nat): (s: string)
    ensures |s| > 0
  {
    if n < 10 then [DIGITS[n]] else Decimal(n / 10) + [DIGITS[n % 10]]
  }

  predicate IsDigit(c: char) {
    '0' <= c <= '9'
  }

  predicate IsSpace(c: char) {
    c == ' ' || c == '\t' || c == '\n' || c as int == 11 || c as int == 12 || c == '\r'
  }

  function SkipSpaces(s: string, i: nat): (r: nat)
    requires i <= |s|
    ensures i <= r <= |s|
    decreases |s| - i
  {
    if i < |s| && IsSpace(s[i]) then SkipSpaces(s, i + 1) else i
  }

  function SkipDigits(s: string, i: nat): (r: nat)
    requires i <= |s|
    ensures i <= r <= |s|
    ensures forall k :: i <= k < r ==> IsDigit(s[k])
    decreases |s| - i
  {
    if i < |s| && IsDigit(s[i]) then SkipDigits(s, i + 1) else i
  }

  /** The number that the digits s[i..j] spell. */
  function DigitsValue(s: string, i: nat, j: nat): nat
    requires i <= j <= |s| && forall k :: i <= k < j ==> IsDigit(s[k])
  {
    if i == j then 0
    else
      assert IsDigit(s[j - 1]);
      10 * DigitsValue(s, i, j - 1) + (s[j - 1] as int - '0' as int)
  }

  /** What strtol and strtoul see: a sign, a magnitude, and where they stop. */
  datatype Scan = Scan(negative: bool, magnitude: nat, end: nat)

  /** Without a digit nothing is converted and the scan stops where it began. */
  function ScanNumber(s: string): (r: Scan)
    ensures r.end <= |s|
  {
    var i := SkipSpaces(s, 0);
    var signed := i < |s| && (s[i] == '-' || s[i] == '+');
    var start := if signed then i + 1 else i;
    var end := SkipDigits(s, start);
    if end == start then Scan(false, 0, 0)
    else Scan(signed && s[i] == '-', DigitsValue(s, start, end), end)
  }

  /** The end test of __db_getlong and __db_getulong. */
  predicate EndsNumber(s: string, end: nat)
    requires end <= |s|
  {
    s != "" && (end == |s| || s[end] == '\n')
  }

  /** __db_getulong with no bounds, for a string without its terminating zero. */
  function GetULong(s: string): Option<nat> {
    var r := ScanNumber(s);
    if r.magnitude >= ULONG_RANGE || !EndsNumber(s, r.end) then None
    else if r.negative && r.magnitude > 0 then Some(ULONG_RANGE - r.magnitude)
    else Some(r.magnitude)
  }

  /** __db_getlong between 0 and LONG_MAX */
  function GetLong(s: string): Option<nat> {
    var r := ScanNumber(s);
    if r.magnitude > LONG_MAX || !EndsNumber(s, r.end) then None
    else if r.negative && r.magnitude > 0 then None
    else Some(r.magnitude)
  }

  /** atoi, for numbers that an int holds */
  function Atoi(s: string): int {
    var r := ScanNumber(s);
    if r.negative then 0 - r.magnitude else r.magnitude
  }

  // ---------- decimal text is read back ----------

  lemma DigitIsRead(v: nat)
    requires v < 10
    ensures IsDigit(DIGITS[v]) && DIGITS[v] as int - '0' as int == v
    ensures !IsSpace(DIGITS[v]) && DIGITS[v] != '-' && DIGITS[v] != '+' && DIGITS[v] != '\n' && DIGITS[v] as int == 48 + v
  {
  }

  lemma {:induction false} DecimalIsRead(n: nat, tail: string)
    ensures var s := Decimal(n) + tail;
            && (forall k :: 0 <= k < |Decimal(n)| ==> IsDigit(s[k]) && IsDigit(Decimal(n)[k]))
            && DigitsValue(s, 0, |Decimal(n)|) == n
  {
    if n < 10 {
      DigitIsRead(n);
    } else {
      var last := [DIGITS[n % 10]];
      DigitIsRead(n % 10);
      DecimalIsRead(n / 10, last + tail);
      assert Decimal(n) + tail == Decimal(n / 10) + (last + tail);
    }
  }

  lemma {:induction false} SkipsExactly(s: string, i: nat, end: nat)
    requires i <= end <= |s| && (forall k :: i <= k < end ==> IsDigit(s[k]))
    requires end == |s| || !IsDigit(s[end])
    ensures SkipDigits(s, i) == end
    decreases end - i
  {
    if i < end { SkipsExactly(s, i + 1, end); }
  }

  /** Decimal text at the end of a string or of a line scans as the number it was printed from. */
  lemma DecimalScans(n: nat, tail: string)
    requires tail == "" || tail[0] == '\n'
    ensures ScanNumber(Decimal(n) + tail) == Scan(false, n, |Decimal(n)|)
    ensures EndsNumber(Decimal(n) + tail, |Decimal(n)|)
  {
    hide Decimal;
    var s := Decimal(n) + tail;
    DecimalIsRead(n, tail);
    assert IsDigit(s[0]);
    assert SkipSpaces(s, 0) == 0;
    SkipsExactly(s, 0, |Decimal(n)|);
  }

  lemma DecimalGetLong(n: nat, tail: string)
    requires (tail == "" || tail[0] == '\n') && n <= LONG_MAX
    ensures GetLong(Decimal(n) + tail) == Some(n) && GetULong(Decimal(n) + tail) == Some(n)
  {
    hide Decimal, ScanNumber;
    DecimalScans(n, tail);
  }

  function Power10(k: nat): nat {
    if k == 0 then 1 else 10 * Power10(k - 1)
  }

  lemma {:induction false} DecimalLength(n: nat, k: nat, bound: nat)
    requires n < bound && bound == Power10(k) && k > 0
    ensures |Decimal(n)| <= k
  {
    if n >= 10 && k > 1 {
      DecimalLength(n / 10, k - 1, Power10(k - 1));
    }
  }

  // ---------- which digits, and which signs ----------

  lemma OnePlaceHigher(n: nat, d: nat, p: nat)
    requires d * p <= n / 10 < d * p + p
    ensures d * (10 * p) <= n < d * (10 * p) + 10 * p
  {
    assert d * (10 * p) == 10 * (d * p);
  }

  /** Decimal text starts with the highest digit: it is that many times the power of ten of its place. */
  lemma {:induction false} DecimalStartsHigh(n: nat)
    ensures n > 0 ==> Decimal(n)[0] != '0'
    ensures IsDigit(Decimal(n)[0])
    ensures var high := (Decimal(n)[0] as int - '0' as int) * Power10(|Decimal(n)| - 1);
            high <= n < high + Power10(|Decimal(n)| - 1)
  {
    if n < 10 {
      DigitIsRead(n);
    } else {
      DecimalStartsHigh(n / 10);
      var d, p := Decimal(n / 10)[0] as int - '0' as int, Power10(|Decimal(n / 10)| - 1);
      assert Decimal(n)[0] == Decimal(n / 10)[0] && Power10(|Decimal(n)| - 1) == 10 * p;
      OnePlaceHigher(n, d, p);
    }
  }

  predicate AllSpaces(s: string) {
    forall k :: 0 <= k < |s| ==> s[k] == ' ' || s[k] == '\t' || s[k] == '\n' || s[k] as int == 11 || s[k] as int == 12 || s[k] == '\r'
  }

  lemma {:induction false} SkipsBlanks(s: string, i: nat, end: nat)
    requires i <= end <= |s| && AllSpaces(s[i..end]) && (end == |s| || !IsSpace(s[end]))
    ensures SkipSpaces(s, i) == end
    decreases end - i
  {
    if i < end {
      assert s[i..end][0] == s[i] && s[i..end][1..] == s[i + 1..end];
      SkipsBlanks(s, i + 1, end);
    }
  }

  lemma {:induction false} SameDigits(s: string, i: nat, j: nat, t: string, a: nat, b: nat)
    requires i <= j <= |s| && a <= b <= |t| && j - i == b - a && s[i..j] == t[a..b]
    requires (forall k :: i <= k < j ==> IsDigit(s[k])) && (forall k :: a <= k < b ==> IsDigit(t[k]))
    ensures DigitsValue(s, i, j) == DigitsValue(t, a, b)
    decreases j
  {
    if i < j {
      assert s[i..j][j - 1 - i] == s[j - 1] && t[a..b][b - 1 - a] == t[b - 1];
      assert s[i..j - 1] == s[i..j][..j - 1 - i] && t[a..b - 1] == t[a..b][..b - 1 - a];
      SameDigits(s, i, j - 1, t, a, b - 1);
    }
  }

  /** Blanks, a sign or none, the digits of a number, and something that is no digit. */
  lemma SignedNumberScans(blanks: string, sign: string, n: nat, tail: string)
    requires AllSpaces(blanks) && (sign == "" || sign == "+" || sign == "-")
    requires tail == "" || !IsDigit(tail[0])
    ensures ScanNumber(blanks + sign + Decimal(n) + tail) ==
            Scan(sign == "-", n, |blanks| + |sign| + |Decimal(n)|)
  {
    hide Decimal, AllSpaces, SkipSpaces, SkipDigits, DigitsValue;
    var s, a := blanks + sign + Decimal(n) + tail, |blanks|;
    var start := a + |sign|;
    var end := start + |Decimal(n)|;
    DecimalIsRead(n, tail);
    assert s[..a] == blanks && s[0..a] == blanks;
    assert s[start..] == Decimal(n) + tail;
    assert forall k :: 0 <= k < |Decimal(n)| ==> s[start + k] == Decimal(n)[k];
    assert sign == "" ==> IsDigit(s[a]);
    assert sign != "" ==> s[a] == sign[0];
    SkipsBlanks(s, 0, a);
    forall k | start <= k < end ensures IsDigit(s[k]) {
      assert s[start + (k - start)] == Decimal(n)[k - start];
    }
    assert end < |s| ==> s[end] == tail[0];
    SkipsExactly(s, start, end);
    SameDigits(s, start, end, Decimal(n) + tail, 0, |Decimal(n)|);
  }

  /** Without a digit behind the blanks and the sign nothing is converted. */
  lemma NothingScans(blanks: string, sign: string, tail: string)
    requires AllSpaces(blanks) && (sign == "" || sign == "+" || sign == "-")
    requires tail == "" || (!IsDigit(tail[0]) && (sign == "" ==> !IsSpace(tail[0]) && tail[0] != '+' && tail[0] != '-'))
    ensures ScanNumber(blanks + sign + tail) == Scan(false, 0, 0)
  {
    hide AllSpaces, SkipSpaces, SkipDigits, DigitsValue;
    var s, a := blanks + sign + tail, |blanks|;
    assert s[0..a] == blanks;
    assert sign != "" ==> s[a] == sign[0];
    assert tail != "" ==> s[a + |sign|] == tail[0];
    SkipsBlanks(s, 0, a);
    SkipsExactly(s, a + |sign|, a + |sign|);
  }

  /** Text without a number is refused, unless it starts with a newline, which counts as 0. */
  lemma NothingIsNoNumber(blanks: string, sign: string, tail: string)
    requires AllSpaces(blanks) && (sign == "" || sign == "+" || sign == "-")
    requires tail == "" || (!IsDigit(tail[0]) && (sign == "" ==> !IsSpace(tail[0]) && tail[0] != '+' && tail[0] != '-'))
    ensures var s := blanks + sign + tail;
            && GetLong(s) == (if s != "" && s[0] == '\n' then Some(0) else None)
            && GetULong(s) == GetLong(s) && Atoi(s) == 0
  {
    hide ScanNumber, AllSpaces;
    NothingScans(blanks, sign, tail);
  }

  /** What db_load takes for a number between 0 and LONG_MAX, for a record number, and for a version. */
  lemma GetLongExactly(blanks: string, sign: string, n: nat, tail: string)
    requires AllSpaces(blanks) && (sign == "" || sign == "+" || sign == "-")
    requires tail == "" || !IsDigit(tail[0])
    ensures GetLong(blanks + sign + Decimal(n) + tail) ==
            if n <= 0x7FFF_FFFF_FFFF_FFFF && (n == 0 || sign != "-") && (tail == "" || tail[0] == '\n') then Some(n) else None
    ensures GetULong(blanks + sign + Decimal(n) + tail) ==
            if n < 0x1_0000_0000_0000_0000 && (tail == "" || tail[0] == '\n') then
              Some(if sign == "-" && n > 0 then 0x1_0000_0000_0000_0000 - n else n)
            else None
    ensures Atoi(blanks + sign + Decimal(n) + tail) == if sign == "-" then -(n as int) else n as int
  {
    hide Decimal, ScanNumber, AllSpaces;
    var s := blanks + sign + Decimal(n) + tail;
    SignedNumberScans(blanks, sign, n, tail);
    var end := |blanks| + |sign| + |Decimal(n)|;
    assert tail != "" ==> s[end] == tail[0];
  }
}
