/** The log as text: one line for a record, comma-separated, and how recovery reads it. */
module WalText {
  import opened Common
  import opened TxMachine
  import P = Parser
  import Q = ParserRoundTrip
  import R = Recovery
  import W = WalManager

  // ---------- writing ----------

  function IntText(v: int): string {
    if v < 0 then "-" + Decimal(-v) else Decimal(v)
  }

  function FvToString(v: FieldValue): string {
    match v
    case IntV(i) => "I:" + IntText(i)
    case StrV(s) => "S:" + s
  }

  /** Every value after a comma. */
  function Values(row: Row): string {
    if row == [] then "" else "," + FvToString(row[0]) + Values(row[1..])
  }

  function Place(op: string, tx: int, table: string, rid: RecordID): string {
    op + "," + IntText(tx) + "," + table + "," + IntText(rid.pageId) + "," + IntText(rid.slotNum)
  }

  /** A line, without the newline that ends it. */
  function Line(r: LogRec): string {
    match r
    case LogInsert(tx, table, rid, v) => Place("INSERT", tx, table, rid) + Values(v)
    case LogDelete(tx, table, rid, v) => Place("DELETE", tx, table, rid) + Values(v)
    case LogUpdate(tx, table, rid, o, n) => Place("UPDATE", tx, table, rid) + Values(o) + ";" + Values(n)
    case LogCommit(tx) => "COMMIT," + IntText(tx)
    case LogAbort(tx) => "ABORT," + IntText(tx)
  }

  function LogText(lg: seq<LogRec>): string {
    if lg == [] then "" else Line(lg[0]) + "\n" + LogText(lg[1..])
  }

  // ---------- reading ----------

  function Until(s: string, d: char): (n: nat)
    ensures n <= |s| && d !in s[..n] && (n < |s| ==> s[n] == d)
  {
    if s == [] || s[0] == d then 0 else 1 + Until(s[1..], d)
  }

  /** getline until the stream ends: a delimiter at the very end starts no token. */
  function Split(s: string, d: char): seq<string>
    decreases |s|
  {
    if s == [] then []
    else
      var n := Until(s, d);
      [s[..n]] + if n < |s| then Split(s[n + 1..], d) else []
  }

  /** std::stoi and std::stoll: spaces, a sign, digits; what follows does not matter.
      None: no digits, or out of range. */
  function ParseInt(s: string, limit: int): Option<int>
    decreases |s|
  {
    if s != [] && P.IsSpace(s[0]) then ParseInt(s[1..], limit)
    else
      var neg := s != [] && s[0] == '-';
      var t := if s != [] && (s[0] == '-' || s[0] == '+') then s[1..] else s;
      var n := P.DigitsLen(t);
      var u: int := P.NatOf(t[..n]);
      var v := if neg then -u else u;
      if n == 0 || v < -limit || v >= limit then None else Some(v)
  }

  const INT32: int := 0x8000_0000
  const INT64: int := 0x8000_0000_0000_0000

  function ParseFV(tok: string): Option<FieldValue> {
    if |tok| > 2 && tok[1] == ':' then
      if tok[0] == 'I' then (match ParseInt(tok[2..], INT32) case None => None case Some(i) => Some(IntV(i)))
      else Some(StrV(tok[2..]))
    else None
  }

  function ParseRow(toks: seq<string>): Option<Row> {
    if toks == [] then Some([])
    else match (ParseFV(toks[0]), ParseRow(toks[1..]))
      case (Some(v), Some(rest)) => Some([v] + rest)
      case _ => None
  }

  /** What becomes of a line: an exception, nothing, or a record. */
  datatype Read = Throws | Ignored | Got(rec: LogRec)

  function Drop(toks: seq<string>, n: nat): seq<string> {
    if n <= |toks| then toks[n..] else []
  }

  function ParseLine(line: string): Read {
    var parts := Split(line, ',');
    if |parts| < 2 then Throws
    else match ParseInt(parts[1], INT64)
      case None => Throws
      case Some(tx) =>
        if parts[0] == "COMMIT" then Got(LogCommit(tx))
        else if parts[0] == "ABORT" then Got(LogAbort(tx))
        else if |parts| < 5 then Throws
        else match (ParseInt(parts[3], INT64), ParseInt(parts[4], INT64))
          case (Some(page), Some(slot)) => ParseValues(line, parts, tx, RecordID(page, slot))
          case _ => Throws
  }

  function ParseValues(line: string, parts: seq<string>, tx: int, rid: RecordID): Read
    requires |parts| >= 5
  {
    if parts[0] == "INSERT" then
      (match ParseRow(parts[5..])
       case None => Throws
       case Some(v) => Got(LogInsert(tx, parts[2], rid, v)))
    else if parts[0] == "DELETE" then
      (match ParseRow(parts[5..])
       case None => Throws
       case Some(v) => Got(LogDelete(tx, parts[2], rid, v)))
    else if parts[0] == "UPDATE" then
      var semi := Until(line, ';');
      var newPart := if semi < |line| then line[semi + 1..] else line;
      (match (ParseRow(Drop(Split(line[..semi], ','), 5)), ParseRow(Drop(Split(newPart, ','), 1)))
       case (Some(o), Some(n)) => Got(LogUpdate(tx, parts[2], rid, o, n))
       case _ => Throws)
    else Ignored
  }

  /** All records; empty lines and unknown operations are skipped. */
  function ParseLines(lines: seq<string>): Option<seq<LogRec>> {
    if lines == [] then Some([])
    else match ParseLines(lines[1..])
      case None => None
      case Some(rest) =>
        if lines[0] == "" then Some(rest)
        else match ParseLine(lines[0])
          case Throws => None
          case Ignored => Some(rest)
          case Got(r) => Some([r] + rest)
  }

  function ParseLog(text: string): Option<seq<LogRec>> { ParseLines(Split(text, '\n')) }

  // ---------- what survives ----------

  predicate Plain(s: string) { ',' !in s && ';' !in s && '\n' !in s }

  predicate FieldSafe(v: FieldValue) {
    match v
    case IntV(i) => -INT32 <= i < INT32
    case StrV(s) => Plain(s)
  }

  predicate RowSafe(row: Row) { forall i :: 0 <= i < |row| ==> FieldSafe(row[i]) }

  /** An empty string is printed as S: with nothing after it, which is too short to read. */
  predicate Full(row: Row) { StrV("") !in row }

  predicate InRange(v: int) { -INT64 <= v < INT64 }

  predicate RecFull(r: LogRec) {
    match r
    case LogInsert(_, _, _, v) => Full(v)
    case LogDelete(_, _, _, v) => Full(v)
    case LogUpdate(_, _, _, o, n) => Full(o) && Full(n)
    case _ => true
  }

  /** Integers in the ranges of the source; no comma, semicolon or newline in strings. */
  predicate RecSafe(r: LogRec) {
    InRange(r.tx)
    && match r
       case LogInsert(_, table, rid, v) => Plain(table) && InRange(rid.pageId) && InRange(rid.slotNum) && RowSafe(v)
       case LogDelete(_, table, rid, v) => Plain(table) && InRange(rid.pageId) && InRange(rid.slotNum) && RowSafe(v)
       case LogUpdate(_, table, rid, o, n) =>
         Plain(table) && InRange(rid.pageId) && InRange(rid.slotNum) && RowSafe(o) && RowSafe(n)
       case _ => true
  }

  lemma {:induction false} UntilAt(a: string, d: char, rest: string)
    requires d !in a
    ensures Until(a + [d] + rest, d) == |a| && Until(a, d) == |a|
    decreases |a|
  {
    var s := a + [d] + rest;
    if a != [] {
      assert s[1..] == a[1..] + [d] + rest && s[0] == a[0] && a[0] in a;
      UntilAt(a[1..], d, rest);
    }
  }

  lemma SplitCons(a: string, d: char, rest: string)
    requires d !in a
    ensures Split(a + [d] + rest, d) == [a] + Split(rest, d)
    ensures Split(a, d) == if a == [] then [] else [a]
  {
    UntilAt(a, d, rest);
    var s := a + [d] + rest;
    assert s[..|a|] == a && s[|a| + 1..] == rest && a[..|a|] == a;
  }

  lemma DigitsRead(d: string, rest: string, neg: bool, limit: int)
    requires d != "" && (forall i :: 0 <= i < |d| ==> P.IsDigit(d[i])) && Q.Boundary(rest)
    ensures var u: int := P.NatOf(d); var v := if neg then -u else u;
            ParseInt((if neg then "-" else "") + d + rest, limit) == if -limit <= v < limit then Some(v) else None
  {
    hide P.NatOf, P.DigitsLen;
    Q.DigitsLenOf(d, rest);
    var t := d + rest;
    assert t[..|d|] == d && t[0] == d[0];
    var s := (if neg then "-" else "") + d + rest;
    if neg { assert s[1..] == t && s[0] == '-'; } else { assert s == t; }
  }

  /** A printed number: no separators in it, and it is read back whatever non-digit follows. */
  lemma IntTextRead(v: int, limit: int, rest: string)
    requires -limit <= v < limit && Q.Boundary(rest)
    ensures Plain(IntText(v)) && IntText(v) != "" && ParseInt(IntText(v) + rest, limit) == Some(v)
  {
    hide ParseInt, Decimal, P.NatOf;
    var n := if v < 0 then -v else v;
    Q.DecimalDigits(n);
    Q.NatOfDecimal(n);
    DigitsRead(Decimal(n), rest, v < 0, limit);
    assert v >= 0 ==> "" + Decimal(n) + rest == IntText(v) + rest;
  }

  lemma FieldRead(v: FieldValue)
    requires FieldSafe(v)
    ensures Plain(FvToString(v)) && FvToString(v) != ""
    ensures ParseFV(FvToString(v)) == if v == StrV("") then None else Some(v)
  {
    var t := FvToString(v);
    match v
    case IntV(i) =>
      IntTextRead(i, INT32, "");
      assert IntText(i) + "" == IntText(i) && t[2..] == IntText(i);
    case StrV(s) => assert t[2..] == s;
  }

  lemma {:induction false} ValuesPlain(row: Row)
    requires RowSafe(row)
    ensures ';' !in Values(row) && '\n' !in Values(row)
    decreases |row|
  {
    if row != [] {
      FieldRead(row[0]);
      ValuesPlain(row[1..]);
    }
  }

  /** The tokens of a token followed by values. */
  function Toks(row: Row): seq<string> {
    if row == [] then [] else [FvToString(row[0])] + Toks(row[1..])
  }

  lemma {:induction false} SplitValues(a: string, row: Row)
    requires ',' !in a && RowSafe(row) && (a != "" || row != [])
    ensures Split(a + Values(row), ',') == [a] + Toks(row)
    decreases |row|
  {
    hide Split, FvToString;
    if row == [] {
      assert a + Values(row) == a;
      SplitCons(a, ',', "");
    } else {
      var t := FvToString(row[0]);
      FieldRead(row[0]);
      assert a + Values(row) == a + [','] + (t + Values(row[1..]));
      SplitCons(a, ',', t + Values(row[1..]));
      SplitValues(t, row[1..]);
    }
  }

  /** The values are read back exactly if none of them is an empty string. */
  lemma {:induction false} ToksRead(row: Row)
    requires RowSafe(row)
    ensures ParseRow(Toks(row)) == if Full(row) then Some(row) else None
    decreases |row|
  {
    if row != [] {
      FieldRead(row[0]);
      ToksRead(row[1..]);
      assert Toks(row)[1..] == Toks(row[1..]) && row == [row[0]] + row[1..];
      assert Full(row) <==> row[0] != StrV("") && Full(row[1..]);
    }
  }

  lemma NumbersRead(tx: int, rid: RecordID)
    requires InRange(tx) && InRange(rid.pageId) && InRange(rid.slotNum)
    ensures ParseInt(IntText(tx), INT64) == Some(tx)
    ensures ParseInt(IntText(rid.pageId), INT64) == Some(rid.pageId)
    ensures ParseInt(IntText(rid.slotNum), INT64) == Some(rid.slotNum)
    ensures Plain(IntText(tx)) && Plain(IntText(rid.pageId)) && Plain(IntText(rid.slotNum))
              && IntText(rid.slotNum) != ""
    ensures IntText(tx) != ""
  {
    IntTextRead(tx, INT64, "");
    IntTextRead(rid.pageId, INT64, "");
    IntTextRead(rid.slotNum, INT64, "");
    assert IntText(tx) + "" == IntText(tx) && IntText(rid.pageId) + "" == IntText(rid.pageId);
    assert IntText(rid.slotNum) + "" == IntText(rid.slotNum);
  }

  /** The first four tokens of a data line. */
  lemma SplitPlace(op: string, tx: int, table: string, rid: RecordID, rest: string)
    requires ',' !in op && InRange(tx) && Plain(table) && InRange(rid.pageId) && InRange(rid.slotNum)
    ensures Split(Place(op, tx, table, rid) + rest, ',')
         == [op, IntText(tx), table, IntText(rid.pageId)] + Split(IntText(rid.slotNum) + rest, ',')
  {
    hide IntText, Split, ParseInt;
    var t3 := IntText(rid.slotNum) + rest;
    var t2 := IntText(rid.pageId) + [','] + t3;
    var t1 := table + [','] + t2;
    var t0 := IntText(tx) + [','] + t1;
    assert Place(op, tx, table, rid) + rest == op + [','] + t0;
    NumbersRead(tx, rid);
    SplitCons(op, ',', t0);
    SplitCons(IntText(tx), ',', t1);
    SplitCons(table, ',', t2);
    SplitCons(IntText(rid.pageId), ',', t3);
  }

  lemma DataLine(op: string, tx: int, table: string, rid: RecordID, row: Row)
    requires op == "INSERT" || op == "DELETE"
    requires InRange(tx) && Plain(table) && InRange(rid.pageId) && InRange(rid.slotNum) && RowSafe(row)
    ensures ParseLine(Place(op, tx, table, rid) + Values(row))
         == if !Full(row) then Throws
            else Got(if op == "INSERT" then LogInsert(tx, table, rid, row) else LogDelete(tx, table, rid, row))
  {
    hide ParseInt, Split, ParseRow, Values, Place;
    NumbersRead(tx, rid);
    SplitPlace(op, tx, table, rid, Values(row));
    SplitValues(IntText(rid.slotNum), row);
    ToksRead(row);
    var parts := Split(Place(op, tx, table, rid) + Values(row), ',');
    assert parts == [op, IntText(tx), table, IntText(rid.pageId), IntText(rid.slotNum)] + Toks(row);
    assert parts[5..] == Toks(row);
  }

  lemma UpdateLine(tx: int, table: string, rid: RecordID, o: Row, n: Row)
    requires InRange(tx) && Plain(table) && InRange(rid.pageId) && InRange(rid.slotNum) && RowSafe(o) && RowSafe(n)
    ensures ParseLine(Line(LogUpdate(tx, table, rid, o, n)))
         == if Full(o) && Full(n) then Got(LogUpdate(tx, table, rid, o, n)) else Throws
  {
    hide ParseInt, Split, ParseRow, Values, Place, IntText, Full, RowSafe, Toks;
    var place, rest := Place("UPDATE", tx, table, rid), Values(o) + ";" + Values(n);
    var line := Line(LogUpdate(tx, table, rid, o, n));
    NumbersRead(tx, rid);
    assert line == place + rest;
    SplitPlace("UPDATE", tx, table, rid, rest);
    SlotToken(rid.slotNum, o, Values(n));
    // before the semicolon
    PlacePlain("UPDATE", tx, table, rid);
    ValuesPlain(o);
    assert line == place + Values(o) + [';'] + Values(n);
    UntilAt(place + Values(o), ';', Values(n));
    var semi := Until(line, ';');
    assert line[..semi] == place + Values(o) && line[semi + 1..] == Values(n);
    SplitPlace("UPDATE", tx, table, rid, Values(o));
    SplitValues(IntText(rid.slotNum), o);
    var olds := Split(line[..semi], ',');
    assert olds == ["UPDATE", IntText(tx), table, IntText(rid.pageId), IntText(rid.slotNum)] + Toks(o);
    assert Drop(olds, 5) == Toks(o);
    ToksRead(o);
    // after it
    NewTokens(n);
    ToksRead(n);
  }

  lemma NewTokens(n: Row)
    requires RowSafe(n)
    ensures Drop(Split(Values(n), ','), 1) == Toks(n)
  {
    if n == [] {
      assert Split("", ',') == [];
    } else {
      SplitValues("", n);
      assert "" + Values(n) == Values(n);
    }
  }

  /** The token of the slot number may run into the semicolon; it is read all the same. */
  lemma SlotToken(slot: int, o: Row, tail: string)
    requires InRange(slot) && RowSafe(o)
    ensures var ts := Split(IntText(slot) + (Values(o) + ";" + tail), ',');
            ts != [] && ParseInt(ts[0], INT64) == Some(slot)
  {
    hide ParseInt, IntText, Split, FvToString, RowSafe;
    var a := IntText(slot);
    if o == [] {
      assert Values(o) + ";" + tail == [';'] + tail;
      SlotRunsOn(slot, [';'] + tail);
    } else {
      var v := FvToString(o[0]) + Values(o[1..]);
      var t := v + ";" + tail;
      assert Values(o) == [','] + v;
      IntTextRead(slot, INT64, "");
      assert a + "" == a && [','] + v + ";" + tail == [','] + t;
      assert a + ([','] + t) == a + [','] + t;
      SplitCons(a, ',', t);
    }
  }

  lemma SlotRunsOn(slot: int, b: string)
    requires InRange(slot) && b != "" && b[0] == ';'
    ensures var ts := Split(IntText(slot) + b, ','); ts != [] && ParseInt(ts[0], INT64) == Some(slot)
  {
    hide ParseInt, IntText;
    var a := IntText(slot);
    IntTextRead(slot, INT64, "");
    BeforeComma(a, b);
    var k := Until(a + b, ',');
    var more := b[..k - |a|];
    assert (a + b)[..k] == a + more;
    IntTextRead(slot, INT64, more);
  }

  lemma {:induction false} BeforeComma(a: string, b: string)
    requires ',' !in a
    ensures Until(a + b, ',') >= |a|
    decreases |a|
  {
    if a != [] {
      assert (a + b)[1..] == a[1..] + b && (a + b)[0] == a[0] && a[0] in a;
      BeforeComma(a[1..], b);
    }
  }

  lemma PlacePlain(op: string, tx: int, table: string, rid: RecordID)
    requires Plain(op) && InRange(tx) && Plain(table) && InRange(rid.pageId) && InRange(rid.slotNum)
    ensures ';' !in Place(op, tx, table, rid) && '\n' !in Place(op, tx, table, rid)
  {
    NumbersRead(tx, rid);
  }

  /** A line is read back as the record it was written for, unless the record has an empty
      string: then reading it throws. */
  lemma LineRoundTrip(r: LogRec)
    requires RecSafe(r)
    ensures ParseLine(Line(r)) == if RecFull(r) then Got(r) else Throws
    ensures Line(r) != "" && '\n' !in Line(r)
  {
    hide ParseLine, Values, Place, RowSafe, IntText, Full;
    match r
    case LogInsert(tx, table, rid, v) =>
      DataLine("INSERT", tx, table, rid, v);
      LinePlain("INSERT", tx, table, rid, v, []);
    case LogDelete(tx, table, rid, v) =>
      DataLine("DELETE", tx, table, rid, v);
      LinePlain("DELETE", tx, table, rid, v, []);
    case LogUpdate(tx, table, rid, o, n) =>
      UpdateLine(tx, table, rid, o, n);
      LinePlain("UPDATE", tx, table, rid, o, n);
    case LogCommit(tx) =>
      assert "COMMIT" + "," == "COMMIT,";
      EndLine("COMMIT", tx);
    case LogAbort(tx) =>
      assert "ABORT" + "," == "ABORT,";
      EndLine("ABORT", tx);
  }

  lemma LinePlain(op: string, tx: int, table: string, rid: RecordID, o: Row, n: Row)
    requires op == "INSERT" || op == "DELETE" || op == "UPDATE"
    requires InRange(tx) && Plain(table) && InRange(rid.pageId) && InRange(rid.slotNum) && RowSafe(o) && RowSafe(n)
    ensures '\n' !in Place(op, tx, table, rid) + Values(o) && Place(op, tx, table, rid) != ""
    ensures '\n' !in Place(op, tx, table, rid) + Values(o) + ";" + Values(n)
  {
    PlacePlain(op, tx, table, rid);
    ValuesPlain(o);
    ValuesPlain(n);
  }

  lemma EndLine(op: string, tx: int)
    requires (op == "COMMIT" || op == "ABORT") && InRange(tx)
    ensures ParseLine(op + "," + IntText(tx)) == Got(if op == "COMMIT" then LogCommit(tx) else LogAbort(tx))
    ensures '\n' !in op + "," + IntText(tx)
  {
    hide ParseInt, Split, IntText;
    NumbersRead(tx, RecordID(0, 0));
    assert op + "," + IntText(tx) == op + [','] + IntText(tx);
    SplitCons(op, ',', IntText(tx));
    SplitCons(IntText(tx), ',', "");
  }

  /** A log file is read back as it was written, unless some record has an empty string:
      then reading the file throws, and recovery does not begin. */
  lemma {:induction false} LogRoundTrip(lg: seq<LogRec>)
    requires forall i :: 0 <= i < |lg| ==> RecSafe(lg[i])
    ensures ParseLog(LogText(lg)) == if forall i :: 0 <= i < |lg| ==> RecFull(lg[i]) then Some(lg) else None
  {
    TornLog(lg, "");
    assert LogText(lg) + "" == LogText(lg);
    assert Split("", '\n') == [] && (forall i :: 0 <= i < |lg| ==> RecFull(lg[i])) ==> lg + [] == lg;
  }

  /** An empty string is written but cannot be read. */
  lemma EmptyStringThrows(r: LogRec)
    requires RecSafe(r) && !RecFull(r)
    ensures ParseLine(Line(r)) == Throws && ParseLog(LogText([r])) == None
  {
    LineRoundTrip(r);
    LogRoundTrip([r]);
  }

  // ---------- a log file that ends in the middle of a line ----------

  /** What is read from the records lg and a torn line after them: the records, and whatever
      the rest of the line happens to say. */
  function Torn(lg: seq<LogRec>, tail: string): Option<seq<LogRec>> {
    if exists i :: 0 <= i < |lg| && !RecFull(lg[i]) then None
    else if tail == "" then Some(lg)
    else match ParseLine(tail)
      case Throws => None
      case Ignored => Some(lg)
      case Got(r) => Some(lg + [r])
  }

  lemma {:induction false} TornLog(lg: seq<LogRec>, tail: string)
    requires (forall i :: 0 <= i < |lg| ==> RecSafe(lg[i])) && '\n' !in tail
    ensures ParseLog(LogText(lg) + tail) == Torn(lg, tail)
    decreases |lg|
  {
    hide ParseLine, Line, RecSafe, RecFull;
    if lg == [] {
      assert LogText(lg) + tail == tail;
      SplitCons(tail, '\n', "");
      OneLine(tail);
    } else {
      var line, rest := Line(lg[0]), LogText(lg[1..]) + tail;
      LineRoundTrip(lg[0]);
      TornLog(lg[1..], tail);
      assert LogText(lg) + tail == line + ['\n'] + rest;
      SplitCons(line, '\n', rest);
      var lines := Split(LogText(lg) + tail, '\n');
      assert lines[1..] == Split(rest, '\n');
      TornCons(lg, tail);
    }
  }

  lemma OneLine(tail: string)
    ensures ParseLines(if tail == "" then [] else [tail]) == Torn([], tail)
  {
    hide ParseLine;
    assert [tail][1..] == [];
    if tail != "" && ParseLine(tail).Got? {
      assert [ParseLine(tail).rec] + [] == [ParseLine(tail).rec] == [] + [ParseLine(tail).rec];
    }
  }

  lemma TornCons(lg: seq<LogRec>, tail: string)
    requires lg != []
    ensures Torn(lg, tail) == if !RecFull(lg[0]) || Torn(lg[1..], tail).None? then None
                              else Some([lg[0]] + Torn(lg[1..], tail).value)
  {
    hide ParseLine, RecFull;
    var tl := lg[1..];
    assert lg == [lg[0]] + tl;
    assert forall i :: 1 <= i < |lg| ==> lg[i] == tl[i - 1];
    assert forall i :: 0 <= i < |tl| ==> tl[i] == lg[i + 1];
    if tail != "" && ParseLine(tail).Got? {
      var r := ParseLine(tail).rec;
      assert [lg[0]] + (tl + [r]) == lg + [r];
    }
  }

  // ---------- the loops ----------

  method SplitString(s: string, d: char) returns (out: seq<string>)
    ensures out == Split(s, d)
  {
    hide Split;
    assert s[0..] == s && [] + Split(s, d) == Split(s, d);
    out := [];
    var i := 0;
    while i < |s|
      invariant 0 <= i <= |s| && Split(s, d) == out + Split(s[i..], d)
    {
      var j := i;
      while j < |s| && s[j] != d
        invariant i <= j <= |s| && d !in s[i..j]
      {
        j := j + 1;
      }
      TokenAt(s, d, i, j);
      var next := if j < |s| then j + 1 else j;
      assert out + ([s[i..j]] + Split(s[next..], d)) == out + [s[i..j]] + Split(s[next..], d);
      out := out + [s[i..j]];
      i := next;
    }
    SplitEnd(s, d);
    assert out + [] == out;
  }

  lemma SplitEnd(s: string, d: char)
    ensures Split(s[|s|..], d) == []
  {
  }

  lemma TokenAt(s: string, d: char, i: nat, j: nat)
    requires i < |s| && i <= j <= |s| && d !in s[i..j] && (j < |s| ==> s[j] == d)
    ensures Split(s[i..], d) == [s[i..j]] + if j < |s| then Split(s[j + 1..], d) else Split(s[j..], d)
  {
    if j < |s| {
      assert s[i..] == s[i..j] + [d] + s[j + 1..];
      SplitCons(s[i..j], d, s[j + 1..]);
    } else {
      assert s[i..] == s[i..j] && s[j..] == [];
      SplitCons(s[i..j], d, "");
    }
  }

  /** The first part of recovery: read all lines of the log file. */
  method ReadLog(text: string) returns (ok: bool, records: seq<LogRec>)
    ensures ok == ParseLog(text).Some?
    ensures ok ==> ParseLog(text) == Some(records)
  {
    hide ParseLine;
    var lines := SplitString(text, '\n');
    records := [];
    for i := 0 to |lines|
      invariant ParseLines(lines[..i]) == Some(records)
    {
      LinesSnoc(lines[..i], lines[i]);
      assert lines[..i + 1] == lines[..i] + [lines[i]];
      if lines[i] == "" { continue; }
      match ParseLine(lines[i])
      case Throws =>
        LinesFail(lines, i);
        return false, [];
      case Ignored =>
      case Got(r) => records := records + [r];
    }
    assert lines[..|lines|] == lines;
    return true, records;
  }

  lemma {:induction false} LinesSnoc(lines: seq<string>, line: string)
    ensures ParseLines(lines + [line])
         == if ParseLines(lines).None? || (line != "" && ParseLine(line).Throws?) then None
            else if line != "" && ParseLine(line).Got? then Some(ParseLines(lines).value + [ParseLine(line).rec])
            else ParseLines(lines)
    decreases |lines|
  {
    hide ParseLine;
    if lines == [] {
      assert [] + [line] == [line] && [line][1..] == [];
      var last := ParseLine(line);
      assert ParseLines([line][1..]) == Some([]);
      if last.Got? { assert [last.rec] + [] == [last.rec] == [] + [last.rec]; }
    } else {
      assert (lines + [line])[1..] == lines[1..] + [line];
      LinesSnoc(lines[1..], line);
      var hd, rest, last := ParseLine(lines[0]), ParseLines(lines[1..]), ParseLine(line);
      if hd.Got? && rest.Some? && last.Got? {
        assert [hd.rec] + (rest.value + [last.rec]) == [hd.rec] + rest.value + [last.rec];
      }
    }
  }

  lemma {:induction false} LinesFail(lines: seq<string>, i: nat)
    requires i < |lines| && lines[i] != "" && ParseLine(lines[i]).Throws?
    ensures ParseLines(lines).None?
    decreases |lines|
  {
    if i > 0 { LinesFail(lines[1..], i - 1); }
  }

  /** Recovery from the log file as it stands on disk: the lines are read before anything
      is touched, so a line that cannot be read leaves disk and log as they are. */
  method RecoverFile(text: string, storage: W.Storage) returns (ok: bool, left: string)
    modifies storage`disk
    ensures ok <==> ParseLog(text).Some? && W.AllKnown(ParseLog(text).value, storage.tables)
    ensures ok ==> storage.disk == R.Recover(old(storage.disk), ParseLog(text).value)
    ensures left == if ok then "" else text
    ensures ParseLog(text).None? ==> storage.disk == old(storage.disk)
  {
    hide R.Recover, W.AllKnown, ParseLog;
    var read, records := ReadLog(text);
    if !read { return false, text; }
    var log := new W.WALManager(records);
    ok := log.Recover(storage);
    left := if ok then "" else text;
  }

  /** A log written by the engine is recovered from exactly if no record holds an empty
      string and every table to redo or undo is registered. */
  method RecoverWritten(lg: seq<LogRec>, storage: W.Storage) returns (ok: bool)
    requires forall i :: 0 <= i < |lg| ==> RecSafe(lg[i])
    modifies storage`disk
    ensures ok <==> (forall i :: 0 <= i < |lg| ==> RecFull(lg[i])) && W.AllKnown(lg, storage.tables)
    ensures ok ==> storage.disk == R.Recover(old(storage.disk), lg)
  {
    hide R.Recover, W.AllKnown, ParseLog, RecSafe, RecFull, LogText;
    LogRoundTrip(lg);
    var left;
    ok, left := RecoverFile(LogText(lg), storage);
  }
}
