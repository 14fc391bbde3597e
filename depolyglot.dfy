/** depolyglot.rb: turns a text file of Polyglot-marked titles, one per line, into
    SQL statements that rename each Italian copy, whose title the migration made
    unique with " (Italiano)", to the Italian title. */
module Depolyglot {
  import opened Text
  import opened Markup

  // ---------------------------------------------------------------------------
  // Reading the file: `IO#each_line` and `String#chomp!`.

  /** The length of the first line of `s`: up to and including the first newline,
      or all of `s` when it has none. */
  function LineLength(s: string): (n: nat)
    ensures s != [] ==> 0 < n <= |s|
    ensures s == [] ==> n == 0
    ensures n < |s| ==> n > 0 && s[n - 1] == '\n'
    ensures forall k :: 0 <= k < n - 1 ==> s[k] != '\n'
  {
    if s == [] then 0
    else if s[0] == '\n' then 1
    else 1 + LineLength(s[1..])
  }

  /** The lines of the file as `each_line` yields them, each with its newline. */
  function Lines(s: string): (r: seq<string>)
    decreases |s|
    ensures s != [] <==> r != []
  {
    if s == [] then []
    else
      var n := LineLength(s);
      [s[..n]] + Lines(s[n..])
  }

  /** No line is empty, every line but the last ends with a newline, the last
      ends where the file does, and no line holds a newline before its end. */
  lemma LinesShape(s: string)
    ensures forall j :: 0 <= j < |Lines(s)| ==> Lines(s)[j] != []
    ensures forall j :: 0 <= j < |Lines(s)| - 1 ==> Lines(s)[j][|Lines(s)[j]| - 1] == '\n'
    ensures Lines(s) != [] ==> Lines(s)[|Lines(s)| - 1][|Lines(s)[|Lines(s)| - 1]| - 1] == s[|s| - 1]
    ensures forall j, k :: 0 <= j < |Lines(s)| && 0 <= k < |Lines(s)[j]| - 1 ==> Lines(s)[j][k] != '\n'
  {
    LinesEnds(s);
    LinesLast(s);
    LinesInnerNoNewline(s);
  }

  /** How each line ends. */
  lemma {:induction false} LinesEnds(s: string)
    ensures forall j :: 0 <= j < |Lines(s)| ==> Lines(s)[j] != []
    ensures forall j :: 0 <= j < |Lines(s)| - 1 ==> Lines(s)[j][|Lines(s)[j]| - 1] == '\n'
    decreases |s|
  {
    if s != [] {
      var n := LineLength(s);
      var r, rest := Lines(s), Lines(s[n..]);
      LinesEnds(s[n..]);
      assert r == [s[..n]] + rest;
      forall j | 0 <= j < |r| ensures r[j] != [] && (j < |r| - 1 ==> r[j][|r[j]| - 1] == '\n') {
        if j > 0 {
          assert r[j] == rest[j - 1];
        }
      }
    }
  }

  /** The last line ends where the file does. */
  lemma {:induction false} LinesLast(s: string)
    ensures Lines(s) != [] ==> |Lines(s)[|Lines(s)| - 1]| > 0
    ensures Lines(s) != [] ==> Lines(s)[|Lines(s)| - 1][|Lines(s)[|Lines(s)| - 1]| - 1] == s[|s| - 1]
    decreases |s|
  {
    if s != [] {
      var n := LineLength(s);
      var r, rest := Lines(s), Lines(s[n..]);
      var t := s[n..];
      LinesLast(t);
      assert r == [s[..n]] + rest;
      if rest == [] {
        assert n == |s| && r[0] == s[..n];
      } else {
        var last := rest[|rest| - 1];
        assert r[|r| - 1] == last;
        assert |last| > 0 && last[|last| - 1] == t[|t| - 1];
        assert t[|t| - 1] == s[|s| - 1];
      }
    }
  }

  /** A newline ends the line it is in. */
  lemma {:induction false} LinesInnerNoNewline(s: string)
    ensures forall j, k :: 0 <= j < |Lines(s)| && 0 <= k < |Lines(s)[j]| - 1 ==> Lines(s)[j][k] != '\n'
    decreases |s|
  {
    if s != [] {
      var n := LineLength(s);
      var r, rest := Lines(s), Lines(s[n..]);
      LinesInnerNoNewline(s[n..]);
      assert r == [s[..n]] + rest;
      forall j, k | 0 <= j < |r| && 0 <= k < |r[j]| - 1 ensures r[j][k] != '\n' {
        if j == 0 {
          assert r[0][k] == s[k];
        } else {
          assert r[j] == rest[j - 1];
        }
      }
    }
  }

  /** No character is lost or changed: the lines put back together are the file. */
  lemma {:induction false} LinesConcat(s: string)
    ensures Concat(Lines(s)) == s
    decreases |s|
  {
    if s != [] {
      var n := LineLength(s);
      var r, rest := Lines(s), Lines(s[n..]);
      assert r[0] == s[..n] && r[1..] == rest by {
        assert r == [s[..n]] + rest;
      }
      calc {
        Concat(r);
        s[..n] + Concat(rest);
        == { LinesConcat(s[n..]); }
        s[..n] + s[n..];
        == { assert s[..n] + s[n..] == s; }
        s;
      }
    }
  }

  function Concat(ls: seq<string>): string {
    if ls == [] then [] else ls[0] + Concat(ls[1..])
  }

  /** `line.chomp!`: the line without its trailing `"\r\n"`, `"\n"` or `"\r"`, or
      `nil` when it ends with none of them. */
  function ChompBang(line: string): (r: Option<string>)
    ensures r.None? <==> line == [] || (line[|line| - 1] != '\n' && line[|line| - 1] != '\r')
    ensures r.Some? ==> |r.value| < |line| && r.value == line[..|r.value|]
    ensures r.Some? ==>
      (|r.value| == |line| - 2 <==> |line| >= 2 && line[|line| - 2] == '\r' && line[|line| - 1] == '\n')
    ensures r.Some? && |r.value| != |line| - 2 ==> |r.value| == |line| - 1
  {
    var n := |line|;
    if n >= 2 && line[n - 2] == '\r' && line[n - 1] == '\n' then Some(line[..n - 2])
    else if n >= 1 && (line[n - 1] == '\n' || line[n - 1] == '\r') then Some(line[..n - 1])
    else None
  }

  /** `line.chomp`: the same, but the line itself when there is nothing to remove. */
  function Chomp(line: string): string {
    match ChompBang(line)
    case Some(v) => v
    case None => line
  }

  // ---------------------------------------------------------------------------
  // The statement written for one line.

  const TitleHead := "UPDATE wp_posts SET post_title='"
  const TitleWhere := " WHERE post_title='"
  const Suffix := " (Italiano)"
  const TitleEnd := ";\n"

  /** The statement for one title line: set the Italian title where the title is
      the English title with " (Italiano)", both with quotes doubled. */
  function Statement(line: string): string {
    TitleHead + Escape(StripAsWritten(line, It)) + "'" + TitleWhere + Escape(StripAsWritten(line, En)) + Suffix + "'" + TitleEnd
  }

  /** Reads a title statement back as an SQL engine does: the new title and the
      title it is looked up by. */
  function ParseStatement(s: string): Option<(string, string)> {
    if !StartsAt(s, 0, TitleHead) then None
    else
      match ReadLiteral(s[|TitleHead|..])
      case None => None
      case Some(set1) =>
        if !StartsAt(set1.1, 0, TitleWhere) then None
        else
          match ReadLiteral(set1.1[|TitleWhere|..])
          case None => None
          case Some(where1) => if where1.1 == TitleEnd then Some((set1.0, where1.0)) else None
  }

  lemma Regroup(a: string, b: string, c: string, d: string, e: string, f: string, g: string, h: string)
    ensures a + b + c + d + e + f + g + h == a + ((b + c) + (d + (((e + f) + g) + h)))
  {
  }

  /** Quote doubling makes every statement read back as intended, whatever quotes
      the titles hold: it sets the Italian version of the line on the post whose
      title is the English version followed by " (Italiano)". */
  lemma ParseStatementLine(line: string)
    ensures ParseStatement(Statement(line)) == Some((StripAsWritten(line, It), StripAsWritten(line, En) + Suffix))
  {
    var it, en := StripAsWritten(line, It), StripAsWritten(line, En);
    var second := ((Escape(en) + Suffix) + "'") + TitleEnd;
    var rest := TitleWhere + second;
    var s := Statement(line);
    assert StartsAt(s, 0, TitleHead) && s[|TitleHead|..] == (Escape(it) + "'") + rest by {
      Regroup(TitleHead, Escape(it), "'", TitleWhere, Escape(en), Suffix, "'", TitleEnd);
      assert s == TitleHead + ((Escape(it) + "'") + rest);
    }
    assert ReadLiteral((Escape(it) + "'") + rest) == Some((it, rest)) by {
      ReadLiteralEscape(it, rest);
    }
    assert StartsAt(rest, 0, TitleWhere) && rest[|TitleWhere|..] == second;
    assert ReadLiteral(second) == Some((en + Suffix, TitleEnd)) by {
      EscapeQuoteFree(Suffix);
      EscapeAppend(en, Suffix);
      ReadLiteralEscape(en + Suffix, TitleEnd);
    }
  }

  // ---------------------------------------------------------------------------
  // The script.

  /** What the script leaves behind: the statements written, and whether it
      stopped with an exception. */
  datatype Outcome = Outcome(statements: seq<string>, crashed: bool)

  /** `lines.each { |line| f.write(...) }` over the chomped lines: a `nil` line
      raises when `gsub` is called on it, after the statements before it. */
  function WriteAll(chomped: seq<Option<string>>): Outcome {
    if chomped == [] then Outcome([], false)
    else
      match chomped[0]
      case None => Outcome([], true)
      case Some(l) =>
        var rest := WriteAll(chomped[1..]);
        Outcome([Statement(l)] + rest.statements, rest.crashed)
  }

  /** The script as written: every line is `chomp!`ed first, then written. */
  function ConvertAsWritten(text: string): Outcome {
    WriteAll(ChompAll(Lines(text)))
  }

  /** Every line `chomp!`ed. */
  function ChompAll(ls: seq<string>): (r: seq<Option<string>>)
    ensures |r| == |ls|
  {
    seq(|ls|, j requires 0 <= j < |ls| => ChompBang(ls[j]))
  }

  /** The script as intended: one statement per line, the line ending removed
      where there is one. */
  function Convert(text: string): (r: seq<string>)
    ensures |r| == |Lines(text)|
  {
    Statements(Lines(text))
  }

  /** The statements for a sequence of lines, one per line. */
  function Statements(ls: seq<string>): (r: seq<string>)
    ensures |r| == |ls|
  {
    seq(|ls|, j requires 0 <= j < |ls| => Statement(Chomp(ls[j])))
  }

  lemma StatementsAppend(la: seq<string>, lb: seq<string>)
    ensures Statements(la + lb) == Statements(la) + Statements(lb)
  {
    var r := Statements(la + lb);
    forall j | 0 <= j < |r| ensures r[j] == (Statements(la) + Statements(lb))[j] {
      if j < |la| {
        assert (la + lb)[j] == la[j];
      } else {
        assert (la + lb)[j] == lb[j - |la|];
      }
    }
  }

  /** Writing stops at the first `nil`, with the statements of the lines before it. */
  lemma {:induction false} WriteAllUpTo(chomped: seq<Option<string>>, n: nat)
    requires n <= |chomped|
    requires forall j :: 0 <= j < n ==> chomped[j].Some?
    requires n < |chomped| ==> chomped[n].None?
    ensures WriteAll(chomped) ==
      Outcome(seq(n, j requires 0 <= j < n => Statement(chomped[j].value)), n < |chomped|)
  {
    if n == 0 {
      if chomped != [] {
        assert chomped[0].None?;
      }
    } else {
      WriteAllUpTo(chomped[1..], n - 1);
      var rest := seq(n - 1, j requires 0 <= j < n - 1 => Statement(chomped[1..][j].value));
      assert [Statement(chomped[0].value)] + rest ==
        seq(n, j requires 0 <= j < n => Statement(chomped[j].value));
    }
  }

  /** `chomp!` gives a line for every line but the last, and for the last exactly
      when the file ends with a newline or a carriage return. */
  lemma ChompLines(text: string)
    ensures forall j :: 0 <= j < |Lines(text)| - 1 ==> ChompBang(Lines(text)[j]).Some?
    ensures Lines(text) != [] ==>
      (ChompBang(Lines(text)[|Lines(text)| - 1]).None? <==>
       text[|text| - 1] != '\n' && text[|text| - 1] != '\r')
  {
    LinesShape(text);
  }

  /** The script ends with an exception exactly when the file's last character is
      neither a newline nor a carriage return; it then has written the statements
      of every line but the last. Otherwise it writes one statement per line. */
  lemma ConvertOutcome(text: string)
    ensures ConvertAsWritten(text).crashed <==>
      text != [] && text[|text| - 1] != '\n' && text[|text| - 1] != '\r'
    ensures ConvertAsWritten(text).statements ==
      if ConvertAsWritten(text).crashed then Convert(text)[..|Lines(text)| - 1] else Convert(text)
  {
    var unterminated := text != [] && text[|text| - 1] != '\n' && text[|text| - 1] != '\r';
    ChompLines(text);
    OutcomeOfLines(Lines(text), unterminated);
  }

  /** `ConvertOutcome` on the lines: all are written when the last one has an
      ending, all but the last otherwise. */
  lemma OutcomeOfLines(ls: seq<string>, unterminated: bool)
    requires forall j :: 0 <= j < |ls| - 1 ==> ChompBang(ls[j]).Some?
    requires ls != [] ==> (ChompBang(ls[|ls| - 1]).None? <==> unterminated)
    requires unterminated ==> ls != []
    ensures WriteAll(ChompAll(ls)).crashed <==> unterminated
    ensures WriteAll(ChompAll(ls)).statements ==
      if unterminated then Statements(ls)[..|ls| - 1] else Statements(ls)
  {
    var n := if unterminated then |ls| - 1 else |ls|;
    WrittenStatements(ls, n);
    assert Statements(ls)[..|ls|] == Statements(ls);
  }

  /** The lines up to the first one `chomp!` gives `nil` for are written, each as
      the intended statement. */
  lemma WrittenStatements(ls: seq<string>, n: nat)
    requires n <= |ls|
    requires forall j :: 0 <= j < n ==> ChompBang(ls[j]).Some?
    requires n < |ls| ==> ChompBang(ls[n]).None?
    ensures WriteAll(ChompAll(ls)) ==
      Outcome(Statements(ls)[..n], n < |ls|)
  {
    var chomped := ChompAll(ls);
    WriteAllUpTo(chomped, n);
    var written := seq(n, j requires 0 <= j < n => Statement(chomped[j].value));
    var all := Statements(ls);
    forall j | 0 <= j < n ensures written[j] == all[..n][j] {
      assert chomped[j].value == Chomp(ls[j]);
    }
    assert written == all[..n];
  }

  /** One statement per line, in order: the statements for a file are those for
      its first lines followed by those for the rest. */
  lemma ConvertAppend(a: string, b: string)
    requires a == [] || a[|a| - 1] == '\n'
    ensures Convert(a + b) == Convert(a) + Convert(b)
  {
    LinesAppend(a, b);
    StatementsAppend(Lines(a), Lines(b));
  }

  /** A file cut after a newline splits into the lines before and after the cut. */
  lemma {:induction false} LinesAppend(a: string, b: string)
    requires a == [] || a[|a| - 1] == '\n'
    ensures Lines(a + b) == Lines(a) + Lines(b)
    decreases |a|
  {
    if a == [] {
      assert a + b == b;
    } else {
      var n := LineLength(a);
      LineLengthAppend(a, b);
      var s := a + b;
      assert s[..n] == a[..n];
      assert s[n..] == a[n..] + b;
      LinesAppend(a[n..], b);
      var la, lb := Lines(a[n..]), Lines(b);
      assert Lines(s) == [a[..n]] + Lines(a[n..] + b);
      assert Lines(a) == [a[..n]] + la;
      AppendAssoc([a[..n]], la, lb);
    }
  }

  lemma {:induction false} LineLengthAppend(a: string, b: string)
    requires a != [] && a[|a| - 1] == '\n'
    ensures LineLength(a + b) == LineLength(a)
    decreases |a|
  {
    if a[0] != '\n' {
      assert (a + b)[1..] == a[1..] + b;
      LineLengthAppend(a[1..], b);
    }
  }
}
