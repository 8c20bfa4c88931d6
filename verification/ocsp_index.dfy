/** The certificate index file: what each line means to the responder, and that printing
    records and parsing them back agree. */
module OcspIndex {
  import opened Bytes

  const TAB: byte := 9
  const NEWLINE: byte := 10
  const RETURN: byte := 13
  const VALID: byte := 86
  const REVOKED: byte := 82

  /** Size of the line buffer, and of the longest serial an entry can hold. */
  const LINE_SIZE: nat := 1024
  const SERIAL_MAX: nat := 64

  datatype Tm = Tm(year: int, mon: int, mday: int, hour: int, min: int, sec: int)

  datatype Entry = Entry(status: byte, revocationTime: int, serial: seq<byte>)

  // ---------------------------------------------------------------- lines and fields

  /** How many bytes fgets takes with room for `limit`: through the first newline, or all it can. */
  function LineLength(data: seq<byte>, limit: nat): (k: nat)
    ensures k <= |data| && k <= limit
    ensures data != [] && limit > 0 ==> k > 0
  {
    if data == [] || limit == 0 then 0 else if data[0] == NEWLINE then 1 else 1 + LineLength(data[1..], limit - 1)
  }

  /** The lines fgets hands out. A line longer than the buffer comes in pieces. */
  function Lines(data: seq<byte>): seq<seq<byte>> {
    if data == [] then []
    else
      var k := LineLength(data, LINE_SIZE - 1);
      [data[..k]] + Lines(data[k..])
  }

  /** Where the next tab is, or the end. */
  function FieldLength(s: seq<byte>): (k: nat)
    ensures k <= |s| && TAB !in s[..k] && (k < |s| ==> s[k] == TAB)
  {
    if s == [] || s[0] == TAB then 0
    else
      var k := 1 + FieldLength(s[1..]);
      assert s[..k] == [s[0]] + s[1..][..k - 1];
      k
  }

  /** The pieces strsep cuts at tabs; an empty text is one empty piece. */
  function Fields(s: seq<byte>): (r: seq<seq<byte>>)
    ensures |r| > 0
  {
    var k := FieldLength(s);
    if k == |s| then [s] else [s[..k]] + Fields(s[k + 1..])
  }

  function Concat(pieces: seq<seq<byte>>): seq<byte> {
    if pieces == [] then [] else pieces[0] + Concat(pieces[1..])
  }

  /** A piece fgets may hand out: it fits the buffer and a newline can only end it. */
  predicate LinePiece(l: seq<byte>) {
    0 < |l| < 1024 && NEWLINE !in l[..|l| - 1]
  }

  /** A piece ends at a newline or where the buffer is full. */
  predicate EndsPiece(l: seq<byte>) {
    l != [] && (l[|l| - 1] == NEWLINE || |l| == 1023)
  }

  lemma {:induction false} LineLengthPiece(data: seq<byte>, limit: nat)
    requires data != [] && limit > 0
    ensures var k := LineLength(data, limit);
            && NEWLINE !in data[..k - 1]
            && (k < |data| && k < limit ==> data[k - 1] == NEWLINE)
  {
    var k := LineLength(data, limit);
    if data[0] != NEWLINE && limit > 1 && |data| > 1 {
      LineLengthPiece(data[1..], limit - 1);
      assert data[..k - 1] == [data[0]] + data[1..][..k - 2];
    }
  }

  lemma NoLines(data: seq<byte>)
    ensures data == [] ==> Lines(data) == []
  {
  }

  /** Reading line by line neither loses nor repeats a byte, however long the lines are. */
  lemma {:induction false} LinesCover(data: seq<byte>)
    ensures Concat(Lines(data)) == data
    ensures forall i :: 0 <= i < |Lines(data)| ==> LinePiece(Lines(data)[i])
    ensures forall i :: 0 <= i < |Lines(data)| - 1 ==> EndsPiece(Lines(data)[i])
    decreases |data|
  {
    if data != [] {
      hide LineLength;
      var k := LineLength(data, LINE_SIZE - 1);
      LineLengthPiece(data, LINE_SIZE - 1);
      LinesCover(data[k..]);
      var line, rest := data[..k], Lines(data[k..]);
      assert Lines(data) == [line] + rest;
      hide Lines;
      assert line[..k - 1] == data[..k - 1] && LinePiece(line);
      assert k < |data| ==> EndsPiece(line);
      assert k == |data| ==> rest == [] by { NoLines(data[k..]); }
      assert ([line] + rest)[1..] == rest;
      assert data == line + data[k..];
    }
  }

  function Join(fields: seq<seq<byte>>): seq<byte>
    requires fields != []
  {
    if |fields| == 1 then fields[0] else fields[0] + [TAB] + Join(fields[1..])
  }

  /** Cutting at tabs and joining with tabs gives the text back, and no piece has a tab in it. */
  lemma {:induction false} FieldsJoin(s: seq<byte>)
    ensures Join(Fields(s)) == s
    ensures forall i :: 0 <= i < |Fields(s)| ==> TAB !in Fields(s)[i]
    decreases |s|
  {
    hide FieldLength;
    var k := FieldLength(s);
    assert s[..|s|] == s;
    if k < |s| {
      FieldsJoin(s[k + 1..]);
      assert Fields(s)[1..] == Fields(s[k + 1..]);
      assert s == s[..k] + [TAB] + s[k + 1..];
    }
  }

  // ---------------------------------------------------------------- one line

  /** The value of a `char`, which is signed. */
  function CharValue(c: byte): (v: int)
    ensures -128 <= v < 128 && (v - c) % 256 == 0
  {
    if c < 128 then c else c - 256
  }

  function TwoDigits(a: byte, b: byte): int {
    (CharValue(a) - 48) * 10 + (CharValue(b) - 48)
  }

  /** The broken-down time of a field of at least twelve characters, read as YYMMDDHHMMSS. */
  function TmOf(f: seq<byte>): Tm
    requires |f| >= 12
  {
    var year := TwoDigits(f[0], f[1]);
    Tm(if year < 50 then 100 + year else year, TwoDigits(f[2], f[3]) - 1, TwoDigits(f[4], f[5]),
       TwoDigits(f[6], f[7]), TwoDigits(f[8], f[9]), TwoDigits(f[10], f[11]))
  }

  /** A shorter field leaves the time zero. */
  function TimeOf(mktime: Tm -> int, f: seq<byte>): int {
    if |f| >= 12 then mktime(TmOf(f)) else 0
  }

  function StatusIn(fields: seq<seq<byte>>): byte
    requires fields != []
  {
    if fields[0] == [] then 0 else fields[0][0]
  }

  function SerialIn(fields: seq<seq<byte>>): seq<byte> {
    if |fields| > 3 && |fields[3]| <= SERIAL_MAX then fields[3] else []
  }

  predicate Blank(text: seq<byte>) {
    text == [] || text[0] == NEWLINE || text[0] == RETURN
  }

  /** The entry a line gives, if it gives one. `line` is what fgets stored, `text` the C string in it. */
  function ParseLine(mktime: Tm -> int, line: seq<byte>): Option<Entry> {
    var text := CStr(line);
    var fields := Fields(text);
    if Blank(text) || |fields| < 4 || SerialIn(fields) == [] then None
    else
      var e := Entry(StatusIn(fields), TimeOf(mktime, fields[2]), SerialIn(fields));
      if e.status == REVOKED && e.revocationTime == -1 then None else Some(e)
  }

  function ToSeq(e: Option<Entry>): seq<Entry> {
    match e case None => [] case Some(x) => [x]
  }

  function ParseLines(mktime: Tm -> int, lines: seq<seq<byte>>): seq<Entry> {
    if lines == [] then [] else ToSeq(ParseLine(mktime, lines[0])) + ParseLines(mktime, lines[1..])
  }

  /** Everything a file says. */
  function ParseIndex(mktime: Tm -> int, data: seq<byte>): seq<Entry> {
    ParseLines(mktime, Lines(data))
  }

  lemma Regroup(a: seq<Entry>, b: seq<Entry>, c: seq<Entry>)
    ensures a + (b + c) == a + b + c
  {
  }

  lemma {:induction false} ParseLinesAppend(mktime: Tm -> int, a: seq<seq<byte>>, b: seq<seq<byte>>)
    ensures ParseLines(mktime, a + b) == ParseLines(mktime, a) + ParseLines(mktime, b)
  {
    hide ParseLine, ToSeq;
    if a == [] {
      assert a + b == b;
    } else {
      ParseLinesAppend(mktime, a[1..], b);
      assert (a + b)[0] == a[0] && (a + b)[1..] == a[1..] + b;
      Regroup(ToSeq(ParseLine(mktime, a[0])), ParseLines(mktime, a[1..]), ParseLines(mktime, b));
    }
  }

  // ---------------------------------------------------------------- printing

  /** The six fields of a line. */
  datatype Record = Record(status: byte, expiry: seq<byte>, revocation: seq<byte>, serial: seq<byte>,
                           filename: seq<byte>, subject: seq<byte>)

  /** A field that can stand between tabs on one line. */
  predicate Clean(f: seq<byte>) {
    TAB !in f && NEWLINE !in f && 0 !in f
  }

  function Print(r: Record): seq<byte> {
    [r.status] + [TAB] + (r.expiry + [TAB] + (r.revocation + [TAB] +
                                              (r.serial + [TAB] + (r.filename + [TAB] + (r.subject + [NEWLINE])))))
  }

  /** A line as the file has it: six fields, tabs between them, a newline at the end. */
  lemma PrintShape(r: Record)
    ensures Print(r) == [r.status] + Ascii("\t") + r.expiry + Ascii("\t") + r.revocation + Ascii("\t") + r.serial +
                        Ascii("\t") + r.filename + Ascii("\t") + r.subject + Ascii("\n")
  {
    var t, n := Ascii("\t"), Ascii("\n");
    assert t == [TAB] && n == [NEWLINE];
    var l5 := r.subject + n;
    var l4 := r.filename + t + l5;
    var l3 := r.serial + t + l4;
    var l2 := r.revocation + t + l3;
    var l1 := r.expiry + t + l2;
    var s1 := [r.status] + t + r.expiry;
    assert [r.status] + t + l1 == s1 + t + l2;
    var s2 := s1 + t + r.revocation;
    assert s1 + t + l2 == s2 + t + l3;
    var s3 := s2 + t + r.serial;
    assert s2 + t + l3 == s3 + t + l4;
    var s4 := s3 + t + r.filename;
    assert s3 + t + l4 == s4 + t + l5;
    assert s4 + t + l5 == s4 + t + r.subject + n;
  }

  predicate Printable(r: Record) {
    && Clean([r.status]) && r.status != RETURN
    && Clean(r.expiry) && Clean(r.revocation) && Clean(r.serial) && Clean(r.filename) && Clean(r.subject)
    && 0 < |r.serial| <= 64
    && |Print(r)| < 1024
  }

  function EntryOf(mktime: Tm -> int, r: Record): Entry {
    Entry(r.status, TimeOf(mktime, r.revocation), r.serial)
  }

  /** A revocation whose time mktime rejects is dropped. */
  function Kept(mktime: Tm -> int, r: Record): Option<Entry> {
    var e := EntryOf(mktime, r);
    if e.status == REVOKED && e.revocationTime == -1 then None else Some(e)
  }

  /** A line of its own: it ends with its only newline and fits the buffer. */
  predicate OneLine(l: seq<byte>) {
    0 < |l| < LINE_SIZE && l[|l| - 1] == NEWLINE && NEWLINE !in l[..|l| - 1]
  }

  lemma {:induction false} LineLengthOf(l: seq<byte>, rest: seq<byte>, limit: nat)
    requires l != [] && l[|l| - 1] == NEWLINE && NEWLINE !in l[..|l| - 1] && |l| <= limit
    ensures LineLength(l + rest, limit) == |l|
  {
    var s := l + rest;
    if |l| > 1 {
      assert l[0] in l[..|l| - 1];
      var t := l[1..];
      assert t[..|t| - 1] == l[..|l| - 1][1..];
      LineLengthOf(t, rest, limit - 1);
      assert s[1..] == t + rest;
    }
  }

  /** A line is parsed on its own, whatever follows it. */
  lemma LineThenRest(mktime: Tm -> int, l: seq<byte>, rest: seq<byte>)
    requires OneLine(l)
    ensures ParseIndex(mktime, l + rest) == ToSeq(ParseLine(mktime, l)) + ParseIndex(mktime, rest)
  {
    hide ParseLine;
    LineLengthOf(l, rest, LINE_SIZE - 1);
    var data := l + rest;
    assert data[..|l|] == l && data[|l|..] == rest;
    assert Lines(data) == [l] + Lines(rest);
    assert Lines(data)[1..] == Lines(rest);
  }

  lemma {:induction false} FieldLengthOf(f: seq<byte>, rest: seq<byte>)
    requires TAB !in f
    ensures FieldLength(f + [TAB] + rest) == |f|
  {
    var s := f + [TAB] + rest;
    if f != [] {
      assert f[0] in f;
      FieldLengthOf(f[1..], rest);
      assert s[1..] == f[1..] + [TAB] + rest;
    }
  }

  lemma FieldCut(f: seq<byte>, rest: seq<byte>)
    requires TAB !in f
    ensures Fields(f + [TAB] + rest) == [f] + Fields(rest)
  {
    hide FieldLength;
    var s := f + [TAB] + rest;
    FieldLengthOf(f, rest);
    assert s[..|f|] == f && s[|f| + 1..] == rest;
  }

  lemma {:induction false} NoTabs(s: seq<byte>)
    requires TAB !in s
    ensures FieldLength(s) == |s| && Fields(s) == [s]
  {
    if s != [] {
      assert s[0] in s;
      NoTabs(s[1..]);
    }
  }

  lemma PrintFields(r: Record)
    requires Printable(r)
    ensures Fields(Print(r)) ==
            [[r.status], r.expiry, r.revocation, r.serial, r.filename, r.subject + [NEWLINE]]
  {
    hide Fields, FieldLength;
    var t5 := r.subject + [NEWLINE];
    var t4 := r.filename + [TAB] + t5;
    var t3 := r.serial + [TAB] + t4;
    var t2 := r.revocation + [TAB] + t3;
    var t1 := r.expiry + [TAB] + t2;
    NoTabs(t5);
    FieldCut(r.filename, t5);
    FieldCut(r.serial, t4);
    FieldCut(r.revocation, t3);
    FieldCut(r.expiry, t2);
    FieldCut([r.status], t1);
  }

  lemma PrintIsOneLine(r: Record)
    requires Printable(r)
    ensures OneLine(Print(r)) && 0 !in Print(r)
  {
    var l := Print(r);
    var body := [r.status] + [TAB] + (r.expiry + [TAB] + (r.revocation + [TAB] +
                                                          (r.serial + [TAB] + (r.filename + [TAB] + r.subject))));
    assert l == body + [NEWLINE];
    assert l[..|l| - 1] == body;
  }

  lemma PrintParsesAsOne(mktime: Tm -> int, r: Record)
    requires Printable(r)
    ensures ParseLine(mktime, Print(r)) == Kept(mktime, r)
  {
    PrintIsOneLine(r);
    PrintFields(r);
    assert Print(r)[0] == r.status;
    assert r.status in [r.status];
    hide Fields, Print, CStr, TmOf;
  }

  /** A file of printed records mixed with other lines. */
  datatype Item = Rec(r: Record) | Junk(line: seq<byte>)

  function CountTabs(s: seq<byte>): nat {
    if s == [] then 0 else (if s[0] == TAB then 1 else 0) + CountTabs(s[1..])
  }

  /** The serial field of a line is there but cannot be used: empty, or too long for an entry. */
  predicate BadSerial(text: seq<byte>) {
    var fields := Fields(text);
    |fields| > 3 && (fields[3] == [] || |fields[3]| > 64)
  }

  /** Blank, with fewer than four fields, or with a serial that cannot be used. */
  predicate Useless(l: seq<byte>)
    requires l != []
  {
    l[0] in Ascii("\n\r") || l[0] == 0 || CountTabs(CStr(l)) < 3 || BadSerial(CStr(l))
  }

  /** A revocation whose time mktime rejects. */
  predicate BadTime(mktime: Tm -> int, text: seq<byte>) {
    var fields := Fields(text);
    |fields| > 2 && StatusIn(fields) == 'R' as int && TimeOf(mktime, fields[2]) == -1
  }

  /** Printed records, and any lines that give no entry. */
  predicate GoodItem(mktime: Tm -> int, i: Item) {
    match i
    case Rec(r) => Printable(r)
    case Junk(l) => OneLine(l) && (Useless(l) || BadTime(mktime, CStr(l)))
  }

  function Text(i: Item): seq<byte> {
    match i case Rec(r) => Print(r) case Junk(l) => l
  }

  function PrintAll(items: seq<Item>): seq<byte> {
    if items == [] then [] else Text(items[0]) + PrintAll(items[1..])
  }

  /** The entries one record or line stands for. */
  function ExpectedOf(mktime: Tm -> int, i: Item): seq<Entry> {
    if i.Rec? then ToSeq(Kept(mktime, i.r)) else []
  }

  function Expected(mktime: Tm -> int, items: seq<Item>): seq<Entry> {
    if items == [] then [] else ExpectedOf(mktime, items[0]) + Expected(mktime, items[1..])
  }

  lemma {:induction false} FieldsCount(s: seq<byte>)
    ensures |Fields(s)| == CountTabs(s) + 1
    decreases |s|
  {
    var k := FieldLength(s);
    CountTabsPrefix(s, k);
    if k < |s| {
      FieldsCount(s[k + 1..]);
      assert s[k..][1..] == s[k + 1..];
    }
  }

  lemma {:induction false} CountTabsPrefix(s: seq<byte>, k: nat)
    requires k <= |s| && TAB !in s[..k]
    ensures CountTabs(s) == CountTabs(s[k..])
  {
    if k > 0 {
      assert s[0] in s[..k];
      assert s[1..][..k - 1] == s[..k][1..];
      CountTabsPrefix(s[1..], k - 1);
      assert s[1..][k - 1..] == s[k..];
    } else {
      assert s[0..] == s;
    }
  }

  /** Exactly which lines contribute nothing. */
  lemma JunkGivesNothing(mktime: Tm -> int, l: seq<byte>)
    requires l != []
    ensures ParseLine(mktime, l).None? <==> Useless(l) || BadTime(mktime, CStr(l))
  {
    FieldsCount(CStr(l));
    LineEnds(l[0]);
    hide Fields, CountTabs, TimeOf;
  }

  lemma LineEnds(c: byte)
    ensures c in Ascii("\n\r") <==> c == NEWLINE || c == RETURN
  {
    var ends := Ascii("\n\r");
    assert ends[0] == 10 && ends[1] == 13;
  }

  /** Printing records, with lines that give no entry anywhere between them, and parsing the file gives
      exactly the statuses, times and serials of the records, in order; revocations whose time cannot
      be converted are the only ones dropped. */
  lemma {:induction false} PrintParseRoundTrip(mktime: Tm -> int, items: seq<Item>)
    requires forall i :: 0 <= i < |items| ==> GoodItem(mktime, items[i])
    ensures ParseIndex(mktime, PrintAll(items)) == Expected(mktime, items)
  {
    if items != [] {
      assert GoodItem(mktime, items[0]);
      PrintParseRoundTrip(mktime, items[1..]);
      match items[0] {
        case Rec(r) =>
          PrintIsOneLine(r);
          PrintParsesAsOne(mktime, r);
        case Junk(l) =>
          JunkGivesNothing(mktime, l);
      }
      hide ParseLine, ParseIndex, GoodItem, Kept, Print;
      LineThenRest(mktime, Text(items[0]), PrintAll(items[1..]));
    }
  }

  // ---------------------------------------------------------------- times

  predicate IsDigit(c: byte) {
    48 <= c <= 57
  }

  function Digit(c: byte): int {
    c as int - 48
  }

  /** A number below 100 as two digits. */
  function TwoDigitText(n: nat): seq<byte>
    requires n < 100
  {
    [48 + n / 10, 48 + n % 10]
  }

  /** YYMMDDHHMMSSZ. */
  function UtcText(yy: nat, mon: nat, day: nat, hour: nat, min: nat, sec: nat): seq<byte>
    requires yy < 100 && mon < 100 && day < 100 && hour < 100 && min < 100 && sec < 100
  {
    TwoDigitText(yy) + TwoDigitText(mon) + TwoDigitText(day) + TwoDigitText(hour) + TwoDigitText(min) +
    TwoDigitText(sec) + [90]
  }

  /** A printed UTCTime is read back component by component, also with a reason after it. */
  lemma UtcTimeRoundTrip(yy: nat, mon: nat, day: nat, hour: nat, min: nat, sec: nat, suffix: seq<byte>)
    requires yy < 100 && mon < 100 && day < 100 && hour < 100 && min < 100 && sec < 100
    ensures var tm := TmOf(UtcText(yy, mon, day, hour, min, sec) + suffix);
            tm == Tm(if yy < 50 then yy + 100 else yy, mon - 1, day, hour, min, sec)
  {
    var f := UtcText(yy, mon, day, hour, min, sec) + suffix;
    assert f[..12] == [48 + yy / 10, 48 + yy % 10, 48 + mon / 10, 48 + mon % 10, 48 + day / 10, 48 + day % 10,
                       48 + hour / 10, 48 + hour % 10, 48 + min / 10, 48 + min % 10, 48 + sec / 10, 48 + sec % 10];
    assert forall i :: 0 <= i < 12 ==> f[i] == f[..12][i];
    hide UtcText;
    TwoDigitsRead(yy);
    TwoDigitsRead(mon);
    TwoDigitsRead(day);
    TwoDigitsRead(hour);
    TwoDigitsRead(min);
    TwoDigitsRead(sec);
  }

  lemma TwoDigitsRead(n: nat)
    requires n < 100
    ensures TwoDigits(48 + n / 10, 48 + n % 10) == n
  {
  }

  lemma UtcTimeYear(f: seq<byte>)
    requires |f| >= 12 && IsDigit(f[0]) && IsDigit(f[1])
    ensures var yy := 10 * Digit(f[0]) + Digit(f[1]);
            1900 + TmOf(f).year == if yy >= 50 then 1900 + yy else 2000 + yy
  {
  }

  /** A GeneralizedTime (section 4.1.2.5.2 of RFC 5280), with its four-digit year, is long enough to
      be accepted but is read two digits early: the year comes out right for 2020 alone, and then the
      month does not, so that no such time is ever read right. */
  lemma GeneralizedTimeMisread(f: seq<byte>, yyyy: nat, month: nat)
    requires |f| >= 15 && forall i :: 0 <= i < 6 ==> IsDigit(f[i])
    requires yyyy == 1000 * Digit(f[0]) + 100 * Digit(f[1]) + 10 * Digit(f[2]) + Digit(f[3])
    requires month == 10 * Digit(f[4]) + Digit(f[5])
    ensures 1900 + TmOf(f).year == yyyy <==> yyyy == 2020
    ensures TmOf(f).mon == yyyy % 100 - 1
    ensures 1 <= month <= 12 ==> !(1900 + TmOf(f).year == yyyy && TmOf(f).mon == month - 1)
  {
    assert IsDigit(f[0]) && IsDigit(f[1]) && IsDigit(f[2]) && IsDigit(f[3]);
    var cc, yy := 10 * Digit(f[0]) + Digit(f[1]), 10 * Digit(f[2]) + Digit(f[3]);
    assert TmOf(f).year == if cc < 50 then 100 + cc else cc;
    assert TmOf(f).mon == yy - 1;
    hide TmOf, Digit, IsDigit;
    CenturyYear(cc, yy, yyyy);
  }

  lemma CenturyYear(cc: int, yy: int, yyyy: int)
    requires 0 <= cc < 100 && 0 <= yy < 100 && yyyy == 100 * cc + yy
    ensures 1900 + (if cc < 50 then 100 + cc else cc) == yyyy <==> yyyy == 2020
    ensures yyyy % 100 == yy
  {
  }
}
