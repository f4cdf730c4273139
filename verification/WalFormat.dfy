/** The log file character by character: the five kinds of line, the split at commas, and
    which texts read as which numbers and fields. */
module WalFormat {
  import opened Common
  import opened TxMachine
  import opened WalText
  import P = Parser

  // ---------- the lines as they stand in the file ----------

  lemma NumberTexts()
    ensures IntText(0) == "0" && IntText(7) == "7" && IntText(120) == "120" && IntText(-45) == "-45"
  {
    assert Decimal(120) == Decimal(12) + "0" && Decimal(12) == "1" + "2";
    assert Decimal(45) == "4" + "5";
  }

  lemma RowTexts()
    ensures Values([]) == "" && Values([IntV(-45), StrV("ab")]) == ",I:-45,S:ab"
  {
    NumberTexts();
    hide IntText;
    var row: Row := [IntV(-45), StrV("ab")];
    assert row[1..] == [StrV("ab")] && row[1..][1..] == [];
    assert Values(row) == "," + FvToString(row[0]) + Values(row[1..]);
    assert Values(row[1..]) == "," + FvToString(row[1]) + Values([]);
    assert "," + "I:-45" + "" == ",I:-45" && "I:" + "-45" == "I:-45" && "S:" + "ab" == "S:ab";
  }

  /** One line of each kind, and the newline after each. */
  lemma LineFormat()
    ensures var row, rid := [IntV(-45), StrV("ab")], RecordID(0, 120);
            Line(LogInsert(7, "t", rid, row)) == "INSERT,7,t,0,120,I:-45,S:ab"
            && Line(LogDelete(7, "t", rid, row)) == "DELETE,7,t,0,120,I:-45,S:ab"
            && Line(LogUpdate(7, "t", rid, row, [])) == "UPDATE,7,t,0,120,I:-45,S:ab;"
            && Line(LogUpdate(7, "t", rid, [], row)) == "UPDATE,7,t,0,120;,I:-45,S:ab"
    ensures Line(LogCommit(7)) == "COMMIT,7" && Line(LogAbort(120)) == "ABORT,120"
    ensures LogText([LogCommit(7), LogAbort(120)]) == "COMMIT,7\nABORT,120\n"
  {
    PlaceTexts();
    RowTexts();
    NumberTexts();
    hide IntText, Values, Place;
    var lg := [LogCommit(7), LogAbort(120)];
    assert lg[1..] == [LogAbort(120)] && lg[1..][1..] == [];
    assert LogText(lg) == Line(lg[0]) + "\n" + (Line(lg[1]) + "\n" + LogText([]));
  }

  lemma PlaceTexts()
    ensures Place("INSERT", 7, "t", RecordID(0, 120)) == "INSERT,7,t,0,120"
    ensures Place("DELETE", 7, "t", RecordID(0, 120)) == "DELETE,7,t,0,120"
    ensures Place("UPDATE", 7, "t", RecordID(0, 120)) == "UPDATE,7,t,0,120"
  {
    NumberTexts();
    hide IntText;
  }

  // ---------- splitting ----------

  /** The tokens, each with the delimiter after it. */
  function Joined(ts: seq<string>, d: char): string {
    if ts == [] then "" else ts[0] + [d] + Joined(ts[1..], d)
  }

  /** The text with a delimiter at its end. */
  function Ended(s: string, d: char): string {
    if s == "" || s[|s| - 1] == d then s else s + [d]
  }

  /** The split is the one way to cut the text at every delimiter: no token has one, and
      put together they are the text, with a delimiter at its end if it has none. */
  lemma {:induction false} SplitExact(s: string, d: char)
    ensures forall i :: 0 <= i < |Split(s, d)| ==> d !in Split(s, d)[i]
    ensures Joined(Split(s, d), d) == Ended(s, d)
    decreases |s|
  {
    if s != "" {
      hide Split, Joined, Ended;
      var n := Until(s, d);
      var tok := s[..n];
      if n < |s| {
        SplitExact(s[n + 1..], d);
        assert s == tok + [d] + s[n + 1..];
        FirstToken(tok, d, s[n + 1..]);
      } else {
        assert tok == s;
        OnlyToken(s, d);
      }
    }
  }

  lemma FirstToken(tok: string, d: char, rest: string)
    requires d !in tok && Joined(Split(rest, d), d) == Ended(rest, d)
    ensures Split(tok + [d] + rest, d) == [tok] + Split(rest, d)
    ensures Joined(Split(tok + [d] + rest, d), d) == Ended(tok + [d] + rest, d)
  {
    hide Split, Joined;
    SplitCons(tok, d, rest);
    JoinedCons(tok, Split(rest, d), d);
    var s := tok + [d] + rest;
    assert rest != "" ==> rest[|rest| - 1] == s[|s| - 1];
    assert tok + [d] + (rest + [d]) == s + [d];
  }

  lemma OnlyToken(s: string, d: char)
    requires s != "" && d !in s
    ensures Split(s, d) == [s] && Joined(Split(s, d), d) == Ended(s, d)
  {
    hide Split, Joined;
    SplitCons(s, d, "");
    JoinedCons(s, [], d);
    assert [s] + [] == [s] && s + [d] + "" == s + [d];
  }

  lemma JoinedCons(tok: string, ts: seq<string>, d: char)
    ensures Joined([tok] + ts, d) == tok + [d] + Joined(ts, d) && Joined([], d) == ""
  {
    assert ([tok] + ts)[1..] == ts;
  }

  // ---------- numbers and fields ----------

  lemma {:induction false} AfterSpaces(sp: string, t: string, limit: int)
    requires forall i :: 0 <= i < |sp| ==> P.IsSpace(sp[i])
    ensures ParseInt(sp + t, limit) == ParseInt(t, limit)
    decreases |sp|
  {
    if sp == "" {
      assert sp + t == t;
    } else {
      assert (sp + t)[1..] == sp[1..] + t;
      AfterSpaces(sp[1..], t, limit);
    }
  }

  lemma {:induction false} DigitsBefore(d: string, rest: string)
    requires (forall i :: 0 <= i < |d| ==> P.IsDigit(d[i])) && (rest != "" ==> !P.IsDigit(rest[0]))
    ensures P.DigitsLen(d + rest) == |d|
    decreases |d|
  {
    if d == "" {
      assert d + rest == rest;
    } else {
      assert (d + rest)[1..] == d[1..] + rest;
      DigitsBefore(d[1..], rest);
    }
  }

  /** What std::stoll makes of spaces, a sign or none, digits and anything after them: the
      number, if it is in range; without a digit, nothing. */
  lemma ParseIntExact(sp: string, sign: string, d: string, rest: string, limit: int)
    requires (forall i :: 0 <= i < |sp| ==> P.IsSpace(sp[i])) && sign in {"", "+", "-"}
    requires forall i :: 0 <= i < |d| ==> P.IsDigit(d[i])
    requires rest != "" ==> !P.IsDigit(rest[0])
    requires sign == "" && d == "" && rest != "" ==> !P.IsSpace(rest[0]) && rest[0] != '-' && rest[0] != '+'
    ensures var u: int := P.NatOf(d); var v := if sign == "-" then -u else u;
            ParseInt(sp + (sign + d + rest), limit) == if d != "" && -limit <= v < limit then Some(v) else None
  {
    hide P.NatOf, P.DigitsLen;
    AfterSpaces(sp, sign + d + rest, limit);
    DigitsBefore(d, rest);
    var s, t := sign + d + rest, d + rest;
    assert t[..|d|] == d;
    if sign == "" {
      assert s == t;
      if d != "" { assert s[0] == d[0]; } else { assert s == rest; }
    } else {
      assert s[0] == sign[0] && s[1..] == t;
    }
  }

  /** Which tokens read as which field: I: and a number, or any other character and a colon
      before a string of at least one character. */
  lemma FieldExact(c: char, t: string)
    requires t != ""
    ensures c != 'I' ==> ParseFV([c, ':'] + t) == Some(StrV(t))
    ensures c == 'I' ==>
              ParseFV([c, ':'] + t)
              == if ParseInt(t, 0x8000_0000).Some? then Some(IntV(ParseInt(t, 0x8000_0000).value)) else None
    ensures ParseFV("") == None && ParseFV([c]) == None && ParseFV([c, ':']) == None
  {
    var tok := [c, ':'] + t;
    assert tok[0] == c && tok[1] == ':' && tok[2..] == t;
  }
}
