/**
 The text of the statement that adds observation vertices, and reading it back. Rows are written between single quotes
 after escapeSingleQuotes; nothing else is escaped, which decides exactly when the text means what was intended.
 */
module StatementText {
  import opened Options

  const QUOTE: char := '\''
  const BACKSLASH: char := '\\'

  function EscapeSingleQuotes(s: string): string {
    if s == [] then []
    else (if s[0] == QUOTE then [BACKSLASH, QUOTE] else [s[0]]) + EscapeSingleQuotes(s[1..])
  }

  /** The character that a backslash followed by `c` stands for inside a literal. */
  function Unescape(c: char): Option<char> {
    match c
    case '\'' => Some('\'')
    case '"' => Some('"')
    case '\\' => Some('\\')
    case 'n' => Some('\n')
    case 'r' => Some('\r')
    case 't' => Some('\t')
    case _ => None
  }

  /** Reads the rest of a single-quoted literal whose opening quote is already consumed. */
  function ReadLiteral(text: string): (r: Option<(string, string)>)
    ensures r.Some? ==> |r.value.1| < |text|
  {
    if text == [] then None
    else if text[0] == QUOTE then Some(("", text[1..]))
    else if text[0] == BACKSLASH then
      if |text| < 2 || Unescape(text[1]) == None then None else Prepend(Unescape(text[1]).value, ReadLiteral(text[2..]))
    else Prepend(text[0], ReadLiteral(text[1..]))
  }

  function Prepend(c: char, r: Option<(string, string)>): Option<(string, string)> {
    match r case None => None case Some((s, rest)) => Some(([c] + s, rest))
  }

  /** `s` written as a literal, without its opening quote, in front of `rest`. */
  function Written(s: string, rest: string): string { EscapeSingleQuotes(s) + [QUOTE] + rest }

  lemma WrittenTail(s: string, rest: string)
    requires s != []
    ensures Written(s, rest) == (if s[0] == QUOTE then [BACKSLASH, QUOTE] else [s[0]]) + Written(s[1..], rest)
  {
  }

  // ---------------------------------------------------------------- what is read for a row

  function Push(c: char, r: Option<string>): Option<string> {
    match r case None => None case Some(s) => Some([c] + s)
  }

  /** What is read for a row that is written as a literal, unless reading does not stop at the quote that closes it. */
  function Understood(row: string): Option<string> {
    if row == [] then Some("")
    else if row[0] != BACKSLASH then Push(row[0], Understood(row[1..]))
    else if |row| < 2 || row[1] == QUOTE || Unescape(row[1]) == None then None
    else Push(Unescape(row[1]).value, Understood(row[2..]))
  }

  /** Reading stopped at a quote inside a row. */
  ghost predicate Early(rest: string, t: string) { exists left :: t == Written(left, rest) }

  /** Reading took the closing quote for one of the row and went on to the next quote. */
  predicate Past(rest: string, t: string) { ReadLiteral(rest).Some? && t == ReadLiteral(rest).value.1 }

  ghost predicate Astray(rest: string, r: Option<(string, string)>) {
    r.Some? ==> Early(rest, r.value.1) || Past(rest, r.value.1)
  }

  /** Whatever the row and whatever follows: reading is in step, stops early, or runs past the end. */
  lemma {:induction false} LiteralIs(s: string, rest: string)
    ensures Understood(s).Some? ==> ReadLiteral(Written(s, rest)) == Some((Understood(s).value, rest))
    ensures Understood(s) == None ==> Astray(rest, ReadLiteral(Written(s, rest)))
    decreases |s|
  {
    if s != [] {
      WrittenTail(s, rest);
      if s[0] == BACKSLASH {
        LiteralAtBackslash(s, rest);
      } else {
        LiteralIs(s[1..], rest);
        assert Written(s, rest)[if s[0] == QUOTE then 2 else 1..] == Written(s[1..], rest);
      }
    }
  }

  lemma {:induction false} LiteralAtBackslash(s: string, rest: string)
    requires s != [] && s[0] == BACKSLASH
    ensures Understood(s).Some? ==> ReadLiteral(Written(s, rest)) == Some((Understood(s).value, rest))
    ensures Understood(s) == None ==> Astray(rest, ReadLiteral(Written(s, rest)))
    decreases |s|, 0
  {
    AfterBackslash(s, rest);
    if |s| > 1 && s[1] != QUOTE {
      LiteralIs(s[2..], rest);
    }
  }

  /** The two characters from a backslash on, and what follows them. */
  lemma AfterBackslash(s: string, rest: string)
    requires s != [] && s[0] == BACKSLASH
    ensures |Written(s, rest)| >= 2 && Written(s, rest)[0] == BACKSLASH
    ensures var text := Written(s, rest);
      if |s| == 1 then text[1] == QUOTE && text[2..] == rest
      else if s[1] == QUOTE then text[1] == BACKSLASH && ReadLiteral(text[2..]) == Some(("", Written(s[2..], rest)))
      else text[1] == s[1] && text[2..] == Written(s[2..], rest)
  {
    WrittenTail(s, rest);
    var later := Written(s[1..], rest);
    assert Written(s, rest) == [BACKSLASH] + later && Written(s, rest)[2..] == later[1..];
    if |s| > 1 {
      WrittenTail(s[1..], rest);
      assert s[1..][1..] == s[2..];
      if s[1] == QUOTE {
        FirstTwo(BACKSLASH, QUOTE, Written(s[2..], rest));
      }
    }
  }

  lemma FirstTwo(a: char, b: char, text: string)
    ensures ([a, b] + text)[0] == a && ([a, b] + text)[1..] == [b] + text && ([b] + text)[1..] == text
  {
  }

  lemma AstrayIsElsewhere(rest: string, r: Option<(string, string)>)
    requires Astray(rest, r) && r.Some?
    ensures r.value.1 != rest
  {
    if Early(rest, r.value.1) {
      var left :| r.value.1 == Written(left, rest);
      assert |r.value.1| > |rest|;
    }
  }

  // ---------------------------------------------------------------- rows that were escaped before

  /** Each attempt to insert an observation escapes its row in place. */
  function EscapeTimes(s: string, n: nat): string { if n == 0 then s else EscapeSingleQuotes(EscapeTimes(s, n - 1)) }

  function Backslashes(n: nat): (s: string)
    ensures |s| == n && forall i | 0 <= i < n :: s[i] == BACKSLASH
  {
    if n == 0 then "" else [BACKSLASH] + Backslashes(n - 1)
  }

  /** How many backslashes a row starts with. */
  function Leading(s: string): (m: nat)
    ensures m <= |s| && s[..m] == Backslashes(m) && (m < |s| ==> s[m] != BACKSLASH)
  {
    if s == [] || s[0] != BACKSLASH then 0
    else
      assert s[..Leading(s[1..]) + 1] == [BACKSLASH] + s[1..][..Leading(s[1..])];
      Leading(s[1..]) + 1
  }

  /** There are exactly `n` backslashes right before each quote, and no others. */
  predicate Carries(row: string, n: nat) {
    row == [] ||
      var m := Leading(row);
      if m < |row| && row[m] == QUOTE then m == n && Carries(row[m + 1..], n) else m == 0 && Carries(row[1..], n)
  }

  lemma {:induction false} CarriesNone(row: string)
    ensures Carries(row, 0) <==> BACKSLASH !in row
  {
    if row != [] {
      CarriesNone(row[1..]);
      assert row == [row[0]] + row[1..];
    }
  }

  lemma {:induction false} EscapeAppend(a: string, b: string)
    ensures EscapeSingleQuotes(a + b) == EscapeSingleQuotes(a) + EscapeSingleQuotes(b)
  {
    if a == [] {
      assert a + b == b;
    } else {
      EscapeAppend(a[1..], b);
      assert (a + b)[1..] == a[1..] + b && (a + b)[0] == a[0];
      Associative(EscapedChar(a[0], 1), EscapeSingleQuotes(a[1..]), EscapeSingleQuotes(b));
    }
  }

  lemma Associative(a: string, b: string, c: string)
    ensures a + (b + c) == a + b + c
  {
  }

  /** What one character is after `n` attempts. */
  function EscapedChar(c: char, n: nat): string { if c == QUOTE then Backslashes(n) + [QUOTE] else [c] }

  lemma BackslashesStay(n: nat)
    ensures EscapeSingleQuotes(Backslashes(n)) == Backslashes(n)
  {
    PlainIsNotEscaped(Backslashes(n));
  }

  lemma {:induction false} OneMoreBackslash(n: nat)
    ensures Backslashes(n) + [BACKSLASH] == Backslashes(n + 1)
  {
    if n > 0 {
      OneMoreBackslash(n - 1);
    }
  }

  lemma EscapeCharAgain(c: char, n: nat)
    ensures EscapeSingleQuotes(EscapedChar(c, n)) == EscapedChar(c, n + 1)
  {
    if c == QUOTE {
      EscapeAppend(Backslashes(n), [QUOTE]);
      BackslashesStay(n);
      OneMoreBackslash(n);
      assert EscapeSingleQuotes([QUOTE]) == [BACKSLASH] + [QUOTE];
    }
  }

  lemma {:induction false} EscapeTimesTail(s: string, n: nat)
    requires s != []
    ensures EscapeTimes(s, n) == EscapedChar(s[0], n) + EscapeTimes(s[1..], n)
  {
    if n > 0 {
      EscapeTimesTail(s, n - 1);
      EscapeAppend(EscapedChar(s[0], n - 1), EscapeTimes(s[1..], n - 1));
      EscapeCharAgain(s[0], n - 1);
    }
  }

  lemma {:induction false} EscapeTimesNothing(n: nat)
    ensures EscapeTimes("", n) == ""
  {
    if n > 0 {
      EscapeTimesNothing(n - 1);
    }
  }

  /** The text of the literal for a row that was escaped `n` times before it is given. */
  function Printed(row: string, n: nat, rest: string): string { Written(EscapeTimes(row, n), rest) }

  lemma PrintedTail(row: string, n: nat, rest: string)
    requires row != []
    ensures Printed(row, n, rest) == EscapedChar(row[0], n + 1) + Printed(row[1..], n, rest)
  {
    EscapeTimesTail(row, n + 1);
  }

  lemma {:induction false} PrintedRun(row: string, n: nat, rest: string)
    ensures var m := Leading(row); Printed(row, n, rest) == Backslashes(m) + Printed(row[m..], n, rest)
  {
    if Leading(row) > 0 {
      PrintedRun(row[1..], n, rest);
      PrintedTail(row, n, rest);
      assert row[1..][Leading(row[1..])..] == row[Leading(row)..];
    }
  }

  function PutBefore(prefix: string, r: Option<(string, string)>): Option<(string, string)> {
    match r case None => None case Some((s, t)) => Some((prefix + s, t))
  }

  /** Backslashes are read in pairs. */
  lemma {:induction false} PairsRead(h: nat, text: string)
    ensures ReadLiteral(Backslashes(2 * h) + text) == PutBefore(Backslashes(h), ReadLiteral(text))
  {
    if h == 0 {
      assert Backslashes(0) + text == text;
      assert ReadLiteral(text).Some? ==> "" + ReadLiteral(text).value.0 == ReadLiteral(text).value.0;
    } else {
      PairsRead(h - 1, text);
      assert Backslashes(2 * h) == [BACKSLASH, BACKSLASH] + Backslashes(2 * (h - 1));
      assert (Backslashes(2 * h) + text)[2..] == Backslashes(2 * (h - 1)) + text;
      assert forall s: string :: [BACKSLASH] + (Backslashes(h - 1) + s) == Backslashes(h) + s;
    }
  }

  lemma RunsDiffer(h: nat, s: string, m: nat, t: string)
    requires s == [] || s[0] != BACKSLASH
    requires t == [] || t[0] != BACKSLASH
    requires h != m || (s == []) != (t == [])
    ensures Backslashes(h) + s != Backslashes(m) + t
  {
    var a, b := Backslashes(h) + s, Backslashes(m) + t;
    if h < m {
      assert b[h] == Backslashes(m)[h] && (s == [] || a[h] == s[0]);
    } else if m < h {
      assert a[m] == Backslashes(h)[m] && (t == [] || b[m] == t[0]);
      assert |a| > m && (t == [] ==> |b| == m);
    } else {
      assert |a| != |b|;
    }
  }

  /** How the literal of a row that starts with backslashes is read: the pairs, and then what is left. */
  lemma RunReads(row: string, n: nat, rest: string) returns (h: nat, b: nat)
    ensures var m := Leading(row); b < 2 && 2 * h + b == m
    ensures var tail := row[Leading(row)..];
      ReadLiteral(Printed(row, n, rest)) == PutBefore(Backslashes(h), ReadLiteral(Backslashes(b) + Printed(tail, n, rest)))
  {
    var m := Leading(row);
    h, b := m / 2, m % 2;
    PrintedRun(row, n, rest);
    SplitRun(2 * h, b);
    PairsRead(h, Backslashes(b) + Printed(row[m..], n, rest));
    assert Backslashes(m) + Printed(row[m..], n, rest) == Backslashes(2 * h) + (Backslashes(b) + Printed(row[m..], n, rest));
  }

  lemma {:induction false} SplitRun(a: nat, b: nat)
    ensures Backslashes(a + b) == Backslashes(a) + Backslashes(b)
  {
    if a > 0 {
      SplitRun(a - 1, b);
    }
  }

  /** Backslashes that are not before a quote get lost, or take the closing quote along. */
  lemma {:induction false} RunElsewhere(row: string, n: nat, rest: string)
    requires Leading(row) > 0 && (Leading(row) < |row| ==> row[Leading(row)] != QUOTE)
    ensures var r := ReadLiteral(Printed(row, n, rest)); r.Some? ==> r.value.0 != row
  {
    var m := Leading(row);
    var tail := row[m..];
    var h, b := RunReads(row, n, rest);
    var text := Backslashes(b) + Printed(tail, n, rest);
    var r := ReadLiteral(text);
    if r.Some? {
      if tail == [] {
        EscapeTimesNothing(n);
        assert text == Backslashes(b) + [QUOTE] + rest;
      } else {
        PrintedTail(tail, n, rest);
        assert text == Backslashes(b) + [tail[0]] + Printed(tail[1..], n, rest);
      }
      ShortRun(b, text, if tail == [] then QUOTE else tail[0]);
      assert row == Backslashes(m) + tail;
      RunsDiffer(h, r.value.0, m, tail);
    }
  }

  /** What is read after an even or odd number of backslashes does not start with one. */
  lemma ShortRun(b: nat, text: string, c: char)
    requires b < 2 && Backslashes(b) + [c] <= text && c != BACKSLASH && ReadLiteral(text).Some?
    ensures var s := ReadLiteral(text).value.0; s == [] || s[0] != BACKSLASH
  {
    assert text[b] == (Backslashes(b) + [c])[b] == c;
    if b == 1 {
      assert text[0] == (Backslashes(b) + [c])[0] == BACKSLASH;
    }
  }

  /** The backslashes before a quote, with those that escaping added. */
  lemma RunBeforeQuote(row: string, n: nat, rest: string) returns (h: nat, b: nat)
    requires Leading(row) < |row| && row[Leading(row)] == QUOTE
    ensures var m := Leading(row); b < 2 && 2 * h + b == m + n + 1
    ensures var m := Leading(row); var later := Printed(row[m + 1..], n, rest);
      ReadLiteral(Printed(row, n, rest)) == PutBefore(Backslashes(h), ReadLiteral(Backslashes(b) + ([QUOTE] + later)))
  {
    var m := Leading(row);
    h, b := (m + n + 1) / 2, (m + n + 1) % 2;
    var later := [QUOTE] + Printed(row[m + 1..], n, rest);
    PrintedRun(row, n, rest);
    PrintedTail(row[m..], n, rest);
    assert row[m..][1..] == row[m + 1..];
    Associative(Backslashes(n + 1), [QUOTE], Printed(row[m + 1..], n, rest));
    RunsJoin(m, n + 1, 2 * h, b, later);
    PairsRead(h, Backslashes(b) + later);
  }

  lemma {:induction false} RunsJoin(a: nat, b: nat, c: nat, d: nat, text: string)
    requires a + b == c + d
    ensures Backslashes(a) + (Backslashes(b) + text) == Backslashes(c) + (Backslashes(d) + text)
  {
    SplitRun(a, b);
    SplitRun(c, d);
    Associative(Backslashes(a), Backslashes(b), text);
    Associative(Backslashes(c), Backslashes(d), text);
  }

  /** Before a quote exactly the number of backslashes survives that was added by escaping. */
  lemma {:induction false} RunAtQuote(row: string, n: nat, rest: string)
    requires Leading(row) < |row| && row[Leading(row)] == QUOTE
    ensures var m := Leading(row); var r := ReadLiteral(Printed(row, n, rest));
      if m == n then r == PutBefore(Backslashes(m) + [QUOTE], ReadLiteral(Printed(row[m + 1..], n, rest)))
      else r.Some? ==> r.value.0 != row
  {
    var m := Leading(row);
    var later := Printed(row[m + 1..], n, rest);
    var h, b := RunBeforeQuote(row, n, rest);
    QuoteAfter(b, later);
    assert row == Backslashes(m) + row[m..];
    if b == 0 {
      RunsDiffer(h, [], m, row[m..]);
    } else if h == m {
      PutBeforeTwice(Backslashes(h), [QUOTE], ReadLiteral(later));
    } else if ReadLiteral(later).Some? {
      RunsDiffer(h, [QUOTE] + ReadLiteral(later).value.0, m, row[m..]);
    }
  }

  lemma PutBeforeTwice(a: string, b: string, r: Option<(string, string)>)
    ensures PutBefore(a, PutBefore(b, r)) == PutBefore(a + b, r)
  {
    if r.Some? {
      Associative(a, b, r.value.0);
    }
  }

  lemma QuoteAfter(b: nat, later: string)
    requires b < 2
    ensures ReadLiteral(Backslashes(b) + ([QUOTE] + later))
            == if b == 0 then Some(("", later)) else PutBefore([QUOTE], ReadLiteral(later))
  {
    var text := Backslashes(b) + ([QUOTE] + later);
    if b == 0 {
      assert text == [QUOTE] + later && text[1..] == later;
    } else {
      assert text[0] == BACKSLASH && text[1] == QUOTE && text[2..] == later;
    }
  }

  /** Read as the original exactly if it carries `n` backslashes, and otherwise as another row or not at all. */
  ghost predicate SurvivesExactly(row: string, n: nat, rest: string) {
    var r := ReadLiteral(Printed(row, n, rest));
    if Carries(row, n) then r == Some((row, rest)) else r.Some? ==> r.value.0 != row
  }

  lemma {:induction false} SurvivesAtQuote(row: string, n: nat, rest: string)
    requires Leading(row) < |row| && row[Leading(row)] == QUOTE && SurvivesExactly(row[Leading(row) + 1..], n, rest)
    ensures SurvivesExactly(row, n, rest)
  {
    var m := Leading(row);
    var prefix, tail := Backslashes(m) + [QUOTE], row[m + 1..];
    RunAtQuote(row, n, rest);
    assert row == prefix + tail;
    PrefixCancels(prefix, tail, ReadLiteral(Printed(tail, n, rest)), rest);
  }

  lemma SurvivesAtPlain(row: string, n: nat, rest: string)
    requires row != [] && Leading(row) == 0 && row[0] != QUOTE && SurvivesExactly(row[1..], n, rest)
    ensures SurvivesExactly(row, n, rest)
  {
    PrintedTail(row, n, rest);
    assert Printed(row, n, rest)[1..] == Printed(row[1..], n, rest);
    assert row == [row[0]] + row[1..];
    PrefixCancels([row[0]], row[1..], ReadLiteral(Printed(row[1..], n, rest)), rest);
  }

  lemma {:induction false} Survives(row: string, n: nat, rest: string)
    ensures SurvivesExactly(row, n, rest)
    decreases |row|
  {
    var m := Leading(row);
    if row == [] {
      EscapeTimesNothing(n);
      assert Printed(row, n, rest)[1..] == rest;
    } else if m < |row| && row[m] == QUOTE {
      Survives(row[m + 1..], n, rest);
      SurvivesAtQuote(row, n, rest);
    } else if m > 0 {
      RunElsewhere(row, n, rest);
    } else {
      Survives(row[1..], n, rest);
      SurvivesAtPlain(row, n, rest);
    }
  }

  /**
   A row that was escaped `n` times before it is given, as in attempt number n + 1, is read as the original if and only if the
   original has exactly `n` backslashes before each quote and no others. Otherwise it is read as another row or not at all.
   */
  lemma EscapedSurvivesIff(row: string, n: nat, rest: string)
    ensures ReadLiteral(Printed(row, n, rest)) == Some((row, rest)) <==> Carries(row, n)
    ensures var r := ReadLiteral(Printed(row, n, rest)); !Carries(row, n) && r.Some? ==> r.value.0 != row
  {
    Survives(row, n, rest);
  }

  lemma PrefixCancels(prefix: string, tail: string, r: Option<(string, string)>, rest: string)
    ensures PutBefore(prefix, r) == Some((prefix + tail, rest)) <==> r == Some((tail, rest))
    ensures r.Some? ==> (prefix + r.value.0 == prefix + tail <==> r.value.0 == tail)
  {
    if r.Some? {
      assert (prefix + r.value.0)[|prefix|..] == r.value.0 && (prefix + tail)[|prefix|..] == tail;
    }
  }

  /** In the terms of what is read for a row. */
  lemma UnderstoodIff(row: string, n: nat)
    ensures Understood(EscapeTimes(row, n)) == Some(row) <==> Carries(row, n)
  {
    EscapedSurvivesIff(row, n, "");
    LiteralIs(EscapeTimes(row, n), "");
    if ReadLiteral(Printed(row, n, "")).Some? && Understood(EscapeTimes(row, n)) == None {
      AstrayIsElsewhere("", ReadLiteral(Printed(row, n, "")));
    }
  }

  /** In particular a row that was not escaped before survives if and only if it contains no backslash. */
  lemma RowSurvivesIff(row: string, rest: string)
    ensures ReadLiteral(Written(row, rest)) == Some((row, rest)) <==> BACKSLASH !in row
    ensures Understood(row) == Some(row) <==> BACKSLASH !in row
    ensures var r := ReadLiteral(Written(row, rest)); BACKSLASH in row && r.Some? ==> r.value.0 != row
  {
    CarriesNone(row);
    EscapedSurvivesIff(row, 0, rest);
    UnderstoodIff(row, 0);
  }

  // ---------------------------------------------------------------- the whole statement

  /** One vertex to add, with its row as the caller means it. */
  datatype NewVertex = NewVertex(kind: string, id: string, row: string)

  const ADD: string := ".addV('"
  const ID: string := ").property(id, '"
  const VALUE: string := ").property(single, 'value', '"

  /** The statement part for one vertex; `text` is the row already escaped. */
  function Part(kind: string, id: string, text: string): string {
    ADD + kind + [QUOTE] + ID + id + [QUOTE] + VALUE + text + [QUOTE] + ")"
  }

  function Parts(vs: seq<NewVertex>): string {
    if vs == [] then [] else Part(vs[0].kind, vs[0].id, EscapeSingleQuotes(vs[0].row)) + Parts(vs[1..])
  }

  function Statement(vs: seq<NewVertex>): string { "g" + Parts(vs) }

  function Expect(text: string, prefix: string): Option<string> {
    if prefix <= text then Some(text[|prefix|..]) else None
  }

  /** A fixed piece of text followed by the literal whose opening quote ends that piece. */
  function ReadField(text: string, before: string): (r: Option<(string, string)>)
    ensures r.Some? ==> |r.value.1| < |text|
  {
    match Expect(text, before) case None => None case Some(t) => ReadLiteral(t)
  }

  function ReadPart(text: string): (r: Option<(NewVertex, string)>)
    ensures r.Some? ==> |r.value.1| < |text|
  {
    match ReadField(text, ADD)
    case None => None
    case Some((kind, t1)) =>
      match ReadField(t1, ID)
      case None => None
      case Some((id, t2)) =>
        match ReadField(t2, VALUE)
        case None => None
        case Some((row, t3)) =>
          match Expect(t3, ")")
          case None => None
          case Some(t4) => Some((NewVertex(kind, id, row), t4))
  }

  function ReadParts(text: string): Option<seq<NewVertex>>
    decreases |text|
  {
    if text == [] then Some([])
    else match ReadPart(text)
         case None => None
         case Some((v, rest)) =>
           match ReadParts(rest) case None => None case Some(vs) => Some([v] + vs)
  }

  function ParseStatement(text: string): Option<seq<NewVertex>> {
    match Expect(text, "g") case None => None case Some(t) => ReadParts(t)
  }

  predicate Plain(s: string) { QUOTE !in s && BACKSLASH !in s }

  lemma {:induction false} PlainIsNotEscaped(s: string)
    requires QUOTE !in s
    ensures EscapeSingleQuotes(s) == s
  {
    if s != [] {
      PlainIsNotEscaped(s[1..]);
    }
  }

  lemma FieldReads(before: string, s: string, rest: string)
    ensures ReadField(before + Written(s, rest), before) == ReadLiteral(Written(s, rest))
  {
    assert (before + Written(s, rest))[|before|..] == Written(s, rest);
  }

  lemma PlainFieldReads(before: string, s: string, rest: string)
    requires Plain(s)
    ensures ReadField(before + s + [QUOTE] + rest, before) == Some((s, rest))
  {
    PlainIsNotEscaped(s);
    assert before + s + [QUOTE] + rest == before + Written(s, rest);
    FieldReads(before, s, rest);
    RowSurvivesIff(s, rest);
  }

  /** The text of one part, field by field. */
  lemma PartFields(v: NewVertex, rest: string) returns (t1: string, t2: string)
    ensures t2 == VALUE + Written(v.row, ")" + rest)
    ensures t1 == ID + v.id + [QUOTE] + t2
    ensures Part(v.kind, v.id, EscapeSingleQuotes(v.row)) + rest == ADD + v.kind + [QUOTE] + t1
  {
    t2 := VALUE + Written(v.row, ")" + rest);
    t1 := ID + v.id + [QUOTE] + t2;
  }

  /** Reading one part gives its kind and id, then whatever the row's literal reads as. */
  lemma PartReads(v: NewVertex, rest: string)
    requires Plain(v.kind) && Plain(v.id)
    ensures var text := Part(v.kind, v.id, EscapeSingleQuotes(v.row)) + rest;
      match ReadLiteral(Written(v.row, ")" + rest))
      case None => ReadPart(text) == None
      case Some((row, t)) =>
        if ")" <= t then ReadPart(text) == Some((NewVertex(v.kind, v.id, row), t[1..])) else ReadPart(text) == None
  {
    var t1, t2 := PartFields(v, rest);
    PlainFieldReads(ADD, v.kind, t1);
    PlainFieldReads(ID, v.id, t2);
    FieldReads(VALUE, v.row, ")" + rest);
  }

  // Labels are written with an underscore in front. So when reading a row has gone astray, what follows is never the text
  // that is expected there: after a quote inside a row the next literal ends right before a label, and past the end too.

  /** Labels and ids as the driver writes them. */
  predicate Labelled(v: NewVertex) { Plain(v.kind) && Plain(v.id) && v.kind != [] && v.kind[0] == '_' }

  lemma UpToQuote(before: string, text: string)
    requires Plain(before)
    ensures ReadLiteral(before + [QUOTE] + text) == Some((before, text))
  {
    PlainIsNotEscaped(before);
    RowSurvivesIff(before, text);
  }

  lemma UpToLabel(text: string)
    ensures ReadLiteral(")" + (ADD + text)).Some? && ReadLiteral(")" + (ADD + text)).value.1 == text
  {
    var before := ")" + ADD[..|ADD| - 1];
    UpToQuote(before, text);
    assert ")" + (ADD + text) == before + [QUOTE] + text;
  }

  /** The first literal after a row, if there is one, ends right before a label. */
  lemma NextLiteral(vs: seq<NewVertex>)
    requires forall v <- vs :: Labelled(v)
    ensures var r := ReadLiteral(")" + Parts(vs)); r.Some? ==> "_" <= r.value.1
  {
    if vs == [] {
      assert (")" + Parts(vs))[1..] == [];
    } else {
      assert Labelled(vs[0]);
      var t1, t2 := PartFields(vs[0], Parts(vs[1..]));
      var text := vs[0].kind + [QUOTE] + t1;
      assert ADD + vs[0].kind + [QUOTE] + t1 == ADD + text;
      UpToLabel(text);
    }
  }

  /** If a text with an opening quote is expected and found, then it is the whole of the row before the closing quote. */
  lemma {:induction false} QuoteEnds(before: string, s: string, rest: string)
    requires Plain(before) && before + [QUOTE] <= Written(s, rest)
    ensures s == before
  {
    var text := Written(s, rest);
    assert (before + [QUOTE])[0] == text[0];
    if s != [] {
      WrittenTail(s, rest);
      if before != [] {
        assert text[1..] == Written(s[1..], rest);
        assert (before + [QUOTE])[1..] == before[1..] + [QUOTE];
        QuoteEnds(before[1..], s[1..], rest);
        assert s == [s[0]] + s[1..] && before == [before[0]] + before[1..];
      }
    }
  }

  lemma NoFieldAtLabel(text: string, before: string)
    requires "_" <= text && before != [] && before[0] != '_'
    ensures Expect(text, before) == None
  {
    assert text[0] == "_"[0];
  }

  /** No part can be read off what is left of a row. */
  lemma NoPartInRow(s: string, vs: seq<NewVertex>)
    requires forall v <- vs :: Labelled(v)
    ensures ReadPart(Written(s, ")" + Parts(vs))) == None
  {
    var rest := ")" + Parts(vs);
    var text := Written(s, rest);
    if ReadPart(text).Some? {
      var before := ".addV(";
      assert ADD == before + [QUOTE];
      QuoteEnds(before, s, rest);
      PlainIsNotEscaped(before);
      assert text == ADD + rest;
      assert text[|ADD|..] == rest;
      NextLiteral(vs);
      NoFieldAtLabel(ReadLiteral(rest).value.1, ID);
    }
  }

  /** When reading a row has gone astray, the statement does not parse. */
  lemma AstrayFails(vs: seq<NewVertex>)
    requires vs != [] && (forall v <- vs :: Labelled(v)) && Understood(vs[0].row) == None
    ensures ReadParts(Parts(vs)) == None
  {
    var v, later := vs[0], vs[1..];
    var rest := ")" + Parts(later);
    assert Labelled(v);
    PartReads(v, Parts(later));
    LiteralIs(v.row, rest);
    PartsRead(Parts(vs));
    var r := ReadLiteral(Written(v.row, rest));
    if r.Some? {
      var t := r.value.1;
      if Past(rest, t) {
        NextLiteral(later);
        NoFieldAtLabel(t, ")");
      } else {
        var left :| t == Written(left, rest);
        if ")" <= t {
          LeftAfterParenthesis(left, rest);
          NoPartInRow(left[1..], later);
          PartsRead(t[1..]);
        }
      }
    }
  }

  lemma LeftAfterParenthesis(left: string, rest: string)
    requires ")" <= Written(left, rest)
    ensures left != [] && Written(left, rest)[1..] == Written(left[1..], rest) && Written(left[1..], rest) != []
  {
    assert Written(left, rest)[0] == ")"[0];
    if left != [] {
      WrittenTail(left, rest);
    }
  }

  lemma PartsRead(text: string)
    requires text != []
    ensures ReadParts(text).Some? <==> ReadPart(text).Some? && ReadParts(ReadPart(text).value.1).Some?
    ensures ReadParts(text).Some? ==>
      && ReadParts(text).value == [ReadPart(text).value.0] + ReadParts(ReadPart(text).value.1).value
      && ReadParts(text).value[1..] == ReadParts(ReadPart(text).value.1).value
  {
  }

  /** The vertices with the rows that are read for them. */
  function AsUnderstood(vs: seq<NewVertex>): Option<seq<NewVertex>> {
    if vs == [] then Some([])
    else
      match (Understood(vs[0].row), AsUnderstood(vs[1..]))
      case (Some(row), Some(later)) => Some([vs[0].(row := row)] + later)
      case _ => None
  }

  lemma FirstPartIs(vs: seq<NewVertex>)
    requires vs != [] && Labelled(vs[0]) && Understood(vs[0].row).Some?
    ensures ReadPart(Parts(vs)) == Some((vs[0].(row := Understood(vs[0].row).value), Parts(vs[1..])))
  {
    var v, rest := vs[0], Parts(vs[1..]);
    LiteralIs(v.row, ")" + rest);
    PartReads(v, rest);
    assert (")" + rest)[1..] == rest;
  }

  lemma {:induction false} PartsAre(vs: seq<NewVertex>)
    requires forall v <- vs :: Labelled(v)
    ensures ReadParts(Parts(vs)) == AsUnderstood(vs)
  {
    if vs != [] {
      assert Labelled(vs[0]);
      if Understood(vs[0].row) == None {
        AstrayFails(vs);
      } else {
        FirstPartIs(vs);
        PartsAre(vs[1..]);
        PartsRead(Parts(vs));
      }
    }
  }

  /**
   What the database reads, for all rows: every vertex with the label and id that were meant and the row that is understood, or
   no statement at all if some row is not.
   */
  lemma StatementIsRead(vs: seq<NewVertex>)
    requires forall v <- vs :: Labelled(v)
    ensures ParseStatement(Statement(vs)) == AsUnderstood(vs)
  {
    PartsAre(vs);
    assert Statement(vs)[1..] == Parts(vs);
  }

  lemma {:induction false} UnderstoodAt(vs: seq<NewVertex>, i: nat)
    requires i < |vs|
    ensures AsUnderstood(vs).Some? ==>
      && Understood(vs[i].row).Some? && |AsUnderstood(vs).value| == |vs|
      && AsUnderstood(vs).value[i] == vs[i].(row := Understood(vs[i].row).value)
  {
    if i > 0 {
      UnderstoodAt(vs[1..], i - 1);
    } else if |vs| > 1 {
      UnderstoodAt(vs[1..], 0);
    }
  }

  lemma {:induction false} UnderstoodIfAll(vs: seq<NewVertex>)
    requires forall v <- vs :: Understood(v.row).Some?
    ensures AsUnderstood(vs).Some?
  {
    if vs != [] {
      UnderstoodIfAll(vs[1..]);
    }
  }

  /**
   Printing the statement and parsing it gives back exactly the vertices that were meant if and only if no row has a
   backslash, for all labels and ids without quotes and backslashes.
   */
  lemma StatementReadsBackIff(vs: seq<NewVertex>)
    requires forall v <- vs :: Plain(v.kind) && Plain(v.id)
    ensures ParseStatement(Statement(vs)) == Some(vs) <==> forall v <- vs :: BACKSLASH !in v.row
  {
    PartsReadBackIff(vs);
    assert Statement(vs)[1..] == Parts(vs);
  }

  lemma {:induction false} PartsReadBackIff(vs: seq<NewVertex>)
    requires forall v <- vs :: Plain(v.kind) && Plain(v.id)
    ensures ReadParts(Parts(vs)) == Some(vs) <==> forall v <- vs :: BACKSLASH !in v.row
  {
    if vs != [] {
      var v, rest := vs[0], Parts(vs[1..]);
      PartsRead(Parts(vs));
      PartReads(v, rest);
      RowSurvivesIff(v.row, ")" + rest);
      PartsReadBackIff(vs[1..]);
      assert (")" + rest)[1..] == rest;
      assert vs == [v] + vs[1..];
    }
  }
}
