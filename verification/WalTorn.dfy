/** A log file that a crash cut short: for every cut, what recovery reads, and for which
    cuts that is right. */
module WalTorn {
  import opened Common
  import opened TxMachine
  import opened WalText
  import P = Parser
  import Q = ParserRoundTrip

  // ---------- no shorter line reads as the record ----------

  /** The length of the tokens, each with a separator. */
  function TokLen(toks: seq<string>): nat {
    if toks == [] then 0 else 1 + |toks[0]| + TokLen(toks[1..])
  }

  lemma {:induction false} SplitLen(s: string, d: char)
    ensures TokLen(Split(s, d)) <= |s| + 1
    decreases |s|
  {
    if s != [] {
      var n := Until(s, d);
      if n < |s| {
        SplitLen(s[n + 1..], d);
        assert Split(s, d)[1..] == Split(s[n + 1..], d);
      }
    }
  }

  lemma {:induction false} DecimalLen(ds: string)
    requires ds != "" && forall i :: 0 <= i < |ds| ==> P.IsDigit(ds[i])
    ensures |Decimal(P.NatOf(ds))| <= |ds|
    decreases |ds|
  {
    var init := ds[..|ds| - 1];
    if init == "" {
      assert P.NatOf(init) == 0;
    } else {
      assert forall i :: 0 <= i < |init| ==> init[i] == ds[i];
      DecimalLen(init);
    }
  }

  lemma {:induction false} DigitsOnly(s: string)
    ensures forall i :: 0 <= i < P.DigitsLen(s) ==> P.IsDigit(s[i])
  {
    if s != "" && P.IsDigit(s[0]) {
      DigitsOnly(s[1..]);
      assert forall i :: 1 <= i < |s| ==> s[i] == s[1..][i - 1];
    }
  }

  lemma {:induction false} IntLen(s: string, limit: int)
    requires ParseInt(s, limit).Some?
    ensures |IntText(ParseInt(s, limit).value)| <= |s|
    decreases |s|
  {
    if s != [] && P.IsSpace(s[0]) {
      IntLen(s[1..], limit);
    } else {
      var t := if s != [] && (s[0] == '-' || s[0] == '+') then s[1..] else s;
      var n := P.DigitsLen(t);
      DigitsOnly(t);
      DecimalLen(t[..n]);
    }
  }

  lemma FieldLen(tok: string)
    requires ParseFV(tok).Some?
    ensures |FvToString(ParseFV(tok).value)| <= |tok|
  {
    if tok[0] == 'I' { IntLen(tok[2..], INT32); }
  }

  lemma {:induction false} RowLen(toks: seq<string>)
    requires ParseRow(toks).Some?
    ensures |Values(ParseRow(toks).value)| <= TokLen(toks)
    decreases |toks|
  {
    hide ParseFV, FvToString;
    if toks != [] {
      FieldLen(toks[0]);
      RowLen(toks[1..]);
      var row := ParseRow(toks).value;
      assert row[1..] == ParseRow(toks[1..]).value;
    }
  }

  lemma TokStep(toks: seq<string>, k: nat)
    requires k < |toks|
    ensures TokLen(toks[k..]) == 1 + |toks[k]| + TokLen(toks[k + 1..])
  {
    assert toks[k..][1..] == toks[k + 1..];
  }

  lemma FiveTokens(toks: seq<string>)
    requires |toks| >= 5
    ensures TokLen(toks) == 5 + |toks[0]| + |toks[1]| + |toks[2]| + |toks[3]| + |toks[4]| + TokLen(toks[5..])
  {
    hide TokLen;
    assert toks[0..] == toks;
    TokStep(toks, 0);
    TokStep(toks, 1);
    TokStep(toks, 2);
    TokStep(toks, 3);
    TokStep(toks, 4);
  }

  /** Whatever line reads as a record (an UPDATE apart), its printed line is no longer. */
  lemma ShortestLine(t: string)
    requires ParseLine(t).Got? && !ParseLine(t).rec.LogUpdate?
    ensures |Line(ParseLine(t).rec)| <= |t|
  {
    hide ParseInt, ParseRow, Split, IntText, Values;
    var parts, r := Split(t, ','), ParseLine(t).rec;
    SplitLen(t, ',');
    IntLen(parts[1], INT64);
    if r.LogInsert? || r.LogDelete? {
      IntLen(parts[3], INT64);
      IntLen(parts[4], INT64);
      RowLen(parts[5..]);
      FiveTokens(parts);
    } else {
      assert parts[1..][0] == parts[1] && TokLen(parts) >= 2 + |parts[0]| + |parts[1]|;
    }
  }

  // ---------- the part of a line that is left ----------

  /** The beginning of a line that starts with the token a: a part of a, or all of it and
      then the beginning of the rest. */
  lemma SplitPart(t: string, a: string, d: char, rest: string)
    requires d !in a && t <= a + [d] + rest
    ensures if |t| <= |a| then t <= a && Split(t, d) == if t == "" then [] else [t]
            else t[..|a| + 1] == a + [d] && t[|a| + 1..] <= rest && Split(t, d) == [a] + Split(t[|a| + 1..], d)
  {
    var s := a + [d] + rest;
    assert t == s[..|t|];
    if |t| <= |a| {
      assert t == a[..|t|];
      SplitCons(t, d, "");
    } else {
      var u := t[|a| + 1..];
      assert u == rest[..|u|] && t == a + [d] + u;
      SplitCons(a, d, u);
    }
  }

  /** The first two tokens of a part of a line: the operation is complete, and the second
      token is a part of the transaction id. */
  lemma FirstTokens(t: string, op: string, tx: int, rest: string)
    requires ',' !in op && InRange(tx) && t <= op + "," + IntText(tx) + rest && (rest != "" ==> rest[0] == ',')
    ensures var parts := Split(t, ',');
            |parts| >= 2 ==> parts[0] == op && parts[1] != "" && parts[1] <= IntText(tx)
  {
    hide Split, IntText, ParseInt;
    var id := IntText(tx);
    IntTextRead(tx, INT64, "");
    assert op + "," + id + rest == op + [','] + (id + rest);
    SplitPart(t, op, ',', id + rest);
    if |t| > |op| {
      var u := t[|op| + 1..];
      if rest == "" {
        assert id + rest == id && u <= id + [','] + "";
        SplitPart(u, id, ',', "");
      } else {
        assert id + rest == id + [','] + rest[1..];
        SplitPart(u, id, ',', rest[1..]);
      }
    }
  }

  /** A part of a printed number is no field: it has no colon. */
  lemma NotAField(v: int, t: string)
    requires t <= IntText(v)
    ensures ParseFV(t) == None
  {
    Q.DecimalDigits(if v < 0 then -v else v);
    if |t| > 2 { assert t[1] == IntText(v)[1]; }
  }

  /** An UPDATE line without its semicolon always throws. */
  lemma NoSemicolon(tx: int, table: string, rid: RecordID, o: Row, n: Row, t: string)
    requires RecSafe(LogUpdate(tx, table, rid, o, n)) && t <= Place("UPDATE", tx, table, rid) + Values(o)
    ensures ParseLine(t) == Throws
  {
    hide Split, ParseInt, IntText, Values, RowSafe, ParseFV;
    var x := Place("UPDATE", tx, table, rid) + Values(o);
    PlaceParts("UPDATE", tx, table, rid, Values(o));
    FirstTokens(t, "UPDATE", tx, Rest(table, rid, Values(o)));
    PlacePlain("UPDATE", tx, table, rid);
    ValuesPlain(o);
    assert forall i :: 0 <= i < |t| ==> t[i] == x[i];
    Untouched(t, ';');
    var parts := Split(t, ',');
    if |parts| >= 2 {
      NotAField(tx, parts[1]);
      assert Drop(parts, 1)[0] == parts[1];
    }
  }

  lemma {:induction false} Untouched(s: string, d: char)
    requires d !in s
    ensures Until(s, d) == |s|
  {
    UntilAt(s, d, "");
  }

  /** An UPDATE line cut after its semicolon reads as another record, if as any. */
  lemma AfterSemicolon(tx: int, table: string, rid: RecordID, o: Row, n: Row, u: string)
    requires RecSafe(LogUpdate(tx, table, rid, o, n)) && u <= Values(n) && u != Values(n)
    ensures var p := ParseLine(Place("UPDATE", tx, table, rid) + Values(o) + ";" + u);
            p == Throws || (p.Got? && p.rec.LogUpdate? && p.rec.new_ != n)
  {
    hide Split, ParseInt, IntText, Values, RowSafe, ParseRow, Place;
    var x := Place("UPDATE", tx, table, rid) + Values(o);
    var t := x + ";" + u;
    var rest := Values(o) + ";" + u;
    assert t == Place("UPDATE", tx, table, rid) + rest && t == x + [';'] + u;
    SplitPlace("UPDATE", tx, table, rid, rest);
    assert Split(t, ',')[0] == "UPDATE";
    PlacePlain("UPDATE", tx, table, rid);
    ValuesPlain(o);
    UntilAt(x, ';', u);
    assert t[|x| + 1..] == u;
    var toks := Split(u, ',');
    SplitLen(u, ',');
    if ParseRow(Drop(toks, 1)).Some? { RowLen(Drop(toks, 1)); }
  }

  /** What a line says when some of it is missing: reading it throws, or it gives another
      record, but never the one that was written, and it is never skipped. */
  lemma PartOfLine(r: LogRec, t: string)
    requires RecSafe(r) && t != "" && t <= Line(r) && t != Line(r)
    ensures ParseLine(t) == Throws || (ParseLine(t).Got? && ParseLine(t).rec != r)
  {
    hide ParseLine, IntText, Values, RowSafe;
    if r.LogUpdate? {
      var x := Place("UPDATE", r.tx, r.table, r.rid) + Values(r.old_);
      var line := Line(r);
      assert line == x + ";" + Values(r.new_);
      if |t| <= |x| {
        assert t == line[..|t|] == x[..|t|];
        NoSemicolon(r.tx, r.table, r.rid, r.old_, r.new_, t);
      } else {
        var u := t[|x| + 1..];
        assert t == line[..|t|] && t == x + ";" + u && u == Values(r.new_)[..|u|];
        AfterSemicolon(r.tx, r.table, r.rid, r.old_, r.new_, u);
      }
    } else {
      NotSkipped(r, t);
      if ParseLine(t) == Got(r) { ShortestLine(t); }
    }
  }

  function OpOf(r: LogRec): string {
    match r
    case LogInsert(_, _, _, _) => "INSERT"
    case LogDelete(_, _, _, _) => "DELETE"
    case LogUpdate(_, _, _, _, _) => "UPDATE"
    case LogCommit(_) => "COMMIT"
    case LogAbort(_) => "ABORT"
  }

  /** What follows the transaction id. */
  function More(r: LogRec): string {
    match r
    case LogInsert(_, table, rid, v) => Rest(table, rid, Values(v))
    case LogDelete(_, table, rid, v) => Rest(table, rid, Values(v))
    case LogUpdate(_, table, rid, o, n) => Rest(table, rid, Values(o) + ";" + Values(n))
    case _ => ""
  }

  function Rest(table: string, rid: RecordID, values: string): string {
    "," + table + "," + IntText(rid.pageId) + "," + IntText(rid.slotNum) + values
  }

  lemma PlaceParts(op: string, tx: int, table: string, rid: RecordID, values: string)
    ensures Place(op, tx, table, rid) + values == op + "," + IntText(tx) + Rest(table, rid, values)
  {
    hide IntText;
  }

  lemma LineParts(r: LogRec)
    ensures Line(r) == OpOf(r) + "," + IntText(r.tx) + More(r) && (More(r) != "" ==> More(r)[0] == ',')
  {
    hide IntText, Values, Place;
    match r
    case LogInsert(tx, table, rid, v) => PlaceParts("INSERT", tx, table, rid, Values(v));
    case LogDelete(tx, table, rid, v) => PlaceParts("DELETE", tx, table, rid, Values(v));
    case LogUpdate(tx, table, rid, o, n) =>
      PlaceParts("UPDATE", tx, table, rid, Values(o) + ";" + Values(n));
      assert Place("UPDATE", tx, table, rid) + (Values(o) + ";" + Values(n)) == Line(r);
    case _ =>
  }

  lemma NotSkipped(r: LogRec, t: string)
    requires RecSafe(r) && t <= Line(r)
    ensures ParseLine(t) != Ignored
  {
    hide Split, ParseLine, IntText, Line, More;
    LineParts(r);
    FirstTokens(t, OpOf(r), r.tx, More(r));
    KnownOp(t, r);
  }

  lemma KnownOp(t: string, r: LogRec)
    requires |Split(t, ',')| >= 2 ==> Split(t, ',')[0] == OpOf(r)
    ensures ParseLine(t) != Ignored
  {
    hide Split, ParseInt, ParseRow;
  }

  // ---------- which cuts are read right ----------

  /** Every prefix of a log file is the text of the first k records and a part of the next
      line (all of it, if only its newline is missing), and reads as Torn says. */
  lemma {:induction false} EveryPrefix(lg: seq<LogRec>, n: nat) returns (k: nat, tail: string)
    requires (forall i :: 0 <= i < |lg| ==> RecSafe(lg[i])) && n <= |LogText(lg)|
    ensures k <= |lg| && LogText(lg)[..n] == LogText(lg[..k]) + tail
    ensures if k < |lg| then tail <= Line(lg[k]) else tail == ""
    ensures ParseLog(LogText(lg)[..n]) == Torn(lg[..k], tail)
    decreases |lg|
  {
    hide ParseLine, Line, RecSafe, RecFull, ParseLog, Torn;
    k, tail := PrefixParts(lg, n);
    if k < |lg| { LineRoundTrip(lg[k]); }
    assert forall i :: 0 <= i < k ==> lg[..k][i] == lg[i];
    TornLog(lg[..k], tail);
  }

  lemma {:induction false} PrefixParts(lg: seq<LogRec>, n: nat) returns (k: nat, tail: string)
    requires n <= |LogText(lg)|
    ensures k <= |lg| && LogText(lg)[..n] == LogText(lg[..k]) + tail
    ensures if k < |lg| then tail <= Line(lg[k]) else tail == ""
    decreases |lg|
  {
    hide Line;
    if lg == [] {
      k, tail := 0, "";
    } else {
      var line, text := Line(lg[0]), LogText(lg);
      assert text == line + "\n" + LogText(lg[1..]);
      if n <= |line| {
        k, tail := 0, line[..n];
        assert text[..n] == tail && LogText(lg[..0]) + tail == tail;
      } else {
        var j;
        j, tail := PrefixParts(lg[1..], n - |line| - 1);
        k := j + 1;
        assert lg[..k][1..] == lg[1..][..j] && lg[..k][0] == lg[0];
        assert text[..n] == line + "\n" + LogText(lg[1..])[..n - |line| - 1];
        assert LogText(lg[..k]) + tail == line + "\n" + (LogText(lg[1..][..j]) + tail);
      }
    }
  }

  predicate AllFull(lg: seq<LogRec>) { forall i :: 0 <= i < |lg| ==> RecFull(lg[i]) }

  lemma {:induction false} TextGrows(lg: seq<LogRec>, i: nat, j: nat)
    requires (forall i :: 0 <= i < |lg| ==> RecSafe(lg[i])) && i <= j <= |lg|
    ensures |LogText(lg[..i])| + 2 * (j - i) <= |LogText(lg[..j])|
    ensures i < |lg| ==> |LogText(lg[..i + 1])| == |LogText(lg[..i])| + |Line(lg[i])| + 1
    decreases |lg|
  {
    hide Line, RecSafe;
    if lg != [] {
      LineRoundTrip(lg[0]);
      if i > 0 {
        assert lg[..i][1..] == lg[1..][..i - 1] && lg[..j][1..] == lg[1..][..j - 1];
        TextGrows(lg[1..], i - 1, j - 1);
        if i < |lg| { assert lg[..i + 1][1..] == lg[1..][..i]; }
      } else {
        assert lg[..1][1..] == [];
        if j > 0 {
          assert lg[..j][1..] == lg[1..][..j - 1] && lg[1..][..0] == [];
          TextGrows(lg[1..], 0, j - 1);
        }
      }
    }
  }

  /** The first n characters of a log file are read as its first m records exactly if none
      of these holds an empty string, and the cut is at the end of the m-th line, with or
      without its newline.  Any other cut throws or makes up a record. */
  lemma CutExact(lg: seq<LogRec>, n: nat, m: nat)
    requires (forall i :: 0 <= i < |lg| ==> RecSafe(lg[i])) && n <= |LogText(lg)| && m <= |lg|
    ensures ParseLog(LogText(lg)[..n]) == Some(lg[..m])
            <==> AllFull(lg[..m]) && (n == |LogText(lg[..m])| || n + 1 == |LogText(lg[..m])|)
  {
    hide ParseLine, Line, RecSafe, RecFull, ParseLog, LogText;
    var k, tail := EveryPrefix(lg, n);
    assert n == |LogText(lg[..k])| + |tail|;
    if m < k { TextGrows(lg, m, k); }
    TextGrows(lg, k, k);
    if m > k {
      TextGrows(lg, k, m);
      TextGrows(lg, k + 1, m);
    }
    if tail != "" {
      LineRoundTrip(lg[k]);
      assert lg[..k + 1] == lg[..k] + [lg[k]];
      assert AllFull(lg[..k + 1]) <==> AllFull(lg[..k]) && RecFull(lg[k]);
      if tail != Line(lg[k]) {
        PartOfLine(lg[k], tail);
        if ParseLine(tail).Got? { Unlike(lg, k, m, ParseLine(tail).rec); }
      }
    }
  }

  lemma Unlike(lg: seq<LogRec>, k: nat, m: nat, r: LogRec)
    requires k < |lg| && m <= |lg| && r != lg[k]
    ensures lg[..k] + [r] != lg[..m]
  {
    var s := lg[..k] + [r];
    assert s[k] == r && |s| == k + 1;
    assert m == k + 1 ==> lg[..m][k] == lg[k];
  }

  // ---------- COMMIT and ABORT lines, exactly ----------

  /** The number without its last k decimal digits. */
  function Chop(v: int, k: nat): int
    decreases if v < 0 then 1 else 0, k
  {
    if v < 0 then -Chop(-v, k) else if k == 0 then v else Chop(v / 10, k - 1)
  }

  lemma {:induction false} DecimalCut(v: nat, k: nat)
    requires k < |Decimal(v)|
    ensures 0 <= Chop(v, k) <= v && (v > 0 ==> Chop(v, k) > 0)
    ensures Decimal(v)[..|Decimal(v)| - k] == Decimal(Chop(v, k))
    decreases k
  {
    var d := Decimal(v);
    if k == 0 {
      assert d[..|d|] == d;
    } else {
      var e := Decimal(v / 10);
      assert d == e + [Digit(v % 10)];
      DecimalCut(v / 10, k - 1);
      assert d[..|d| - k] == e[..|e| - (k - 1)];
    }
  }

  /** A COMMIT or ABORT line without its last k characters is about another transaction, the
      one whose number has that many digits less; with no digit left, it throws. */
  lemma EndLineCut(r: LogRec, k: nat)
    requires (r.LogCommit? || r.LogAbort?) && InRange(r.tx) && k <= |Line(r)|
    ensures var digits, t, tx := |IntText(r.tx)| - if r.tx < 0 then 1 else 0, Line(r)[..|Line(r)| - k], Chop(r.tx, k);
            ParseLine(t) == if k >= digits then Throws else Got(if r.LogCommit? then LogCommit(tx) else LogAbort(tx))
  {
    hide ParseLine, IntText, Chop;
    var op, id := OpOf(r), IntText(r.tx);
    var line := Line(r);
    assert line == op + "," + id;
    if k < |id| - (if r.tx < 0 then 1 else 0) {
      NumberCut(r.tx, k);
      EndLine(op, Chop(r.tx, k));
      assert line[..|line| - k] == op + "," + id[..|id| - k];
    } else {
      SignOnly(r.tx);
      NoDigits(r, line[..|line| - k]);
    }
  }

  lemma SignOnly(v: int)
    ensures var sign := if v < 0 then "-" else ""; sign <= IntText(v)
  {
  }

  lemma NumberCut(v: int, k: nat)
    requires k < |IntText(v)| - if v < 0 then 1 else 0
    ensures IntText(v)[..|IntText(v)| - k] == IntText(Chop(v, k))
    ensures if v < 0 then v <= Chop(v, k) else Chop(v, k) <= v
    ensures v < 0 <==> Chop(v, k) < 0
  {
    var n := if v < 0 then -v else v;
    hide Decimal;
    DecimalCut(n, k);
    if v < 0 { assert IntText(v)[..|IntText(v)| - k] == "-" + Decimal(n)[..|Decimal(n)| - k]; }
  }

  lemma NoDigits(r: LogRec, t: string)
    requires (r.LogCommit? || r.LogAbort?) && InRange(r.tx)
    requires t <= OpOf(r) + "," + (if r.tx < 0 then "-" else "")
    ensures ParseLine(t) == Throws
  {
    hide IntText, ParseInt;
    var op, sign := OpOf(r), if r.tx < 0 then "-" else "";
    assert op + "," + sign == op + [','] + sign;
    SplitPart(t, op, ',', sign);
    if |t| > |op| {
      var u := t[|op| + 1..];
      assert u == "" || u == "-";
      SplitCons(u, ',', "");
      assert ParseInt("-", INT64) == None by { NoNumber(); }
    }
  }

  lemma NoNumber()
    ensures ParseInt("-", INT64) == None
  {
    assert "-"[1..] == "";
  }
}
