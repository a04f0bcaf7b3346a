/** The iCalendar writer (sections 3.1 and 3.3.11 of RFC 5545): escaped values, folded lines, and the reader
    that undoes both. A character stands for an octet. */
module IcsText {
  import opened Text

  // ---- Values ----

  function Escaped(c: char): string {
    if c == '\\' then "\\\\" else if c == ';' then "\\;" else if c == ',' then "\\," else if c == '\n' then "\\n"
    else if c == '\r' then "" else [c]
  }

  function Escape(s: string): string {
    if s == "" then "" else Escaped(s[0]) + Escape(s[1..])
  }

  /** The character a backslash and `c` stand for. */
  function Unescaped(c: char): char { if c == 'n' then '\n' else c }

  function Unescape(s: string): string {
    if s == "" then ""
    else if s[0] == '\\' && |s| > 1 && s[1] in ",;n\\" then [Unescaped(s[1])] + Unescape(s[2..])
    else [s[0]] + Unescape(s[1..])
  }

  function DropCR(s: string): string {
    if s == "" then "" else (if s[0] == '\r' then "" else [s[0]]) + DropCR(s[1..])
  }

  lemma UnescapeFirst(c: char, rest: string)
    ensures Unescape(Escaped(c) + rest) == (if c == '\r' then "" else [c]) + Unescape(rest)
  {
    var e := Escaped(c);
    var s := e + rest;
    assert s[|e|..] == rest;
    if e == "" { assert s == rest; }
  }

  /** Unescaping gives the value back without its carriage returns. */
  lemma {:induction false} UnescapeEscape(s: string)
    ensures Unescape(Escape(s)) == DropCR(s)
  {
    if s != "" {
      UnescapeEscape(s[1..]);
      UnescapeFirst(s[0], Escape(s[1..]));
    }
  }

  predicate OneLine(s: string) { '\r' !in s && '\n' !in s }

  lemma {:induction false} EscapeIsOneLine(s: string)
    ensures OneLine(Escape(s))
  {
    if s != "" { EscapeIsOneLine(s[1..]); }
  }

  /** Backslashes only before one of the four characters they can stand with, and no other separator or line break. */
  predicate Tidy(e: string) {
    || e == ""
    || (|e| > 1 && e[0] == '\\' && e[1] in "\\;,n" && Tidy(e[2..]))
    || (e[0] !in "\\;,\r\n" && Tidy(e[1..]))
  }

  /** No bare semicolon, comma or backslash is left in an escaped value. */
  lemma {:induction false} EscapeIsTidy(s: string)
    ensures Tidy(Escape(s))
  {
    if s != "" {
      EscapeIsTidy(s[1..]);
      TidyFirst(s[0], Escape(s[1..]));
    }
  }

  lemma TidyFirst(c: char, rest: string)
    requires Tidy(rest)
    ensures Tidy(Escaped(c) + rest)
  {
    var e := Escaped(c);
    var s := e + rest;
    assert s[|e|..] == rest;
    if e == "" { assert s == rest; }
  }

  // ---- Folding ----

  const Limit := 75
  const Break: string := "\r\n"

  /** The line in pieces of at most 75 octets, each but the first behind a line break and a space. */
  function Folded(s: string): string {
    if |s| <= Limit then s else s[..Limit] + "\r\n " + Folded(s[Limit..])
  }

  method Fold(s: string) returns (out: string)
    ensures out == Folded(s)
  {
    hide Folded, Rest;
    RestEnds(s);
    if |s| <= Limit { return s; }
    out := "";
    var i := 0;
    while i < |s|
      invariant 0 <= i && out + Rest(s, i) == Folded(s)
    {
      RestStep(s, i);
      ghost var before := out;
      if i > 0 { out := out + "\r\n "; }
      var end := if i + Limit > |s| then |s| else i + Limit;
      out := out + s[i..end];
      assert before + Rest(s, i) == out + Rest(s, i + Limit);
      i := i + Limit;
    }
  }

  /** What the loop still has to write when it stands at `i`. */
  function Rest(s: string, i: nat): string {
    if i >= |s| then "" else Lead(i) + Folded(s[i..])
  }

  function Lead(i: nat): string { if i > 0 then "\r\n " else "" }

  lemma RestEnds(s: string)
    ensures (|s| <= Limit ==> Folded(s) == s) && (s != "" ==> Rest(s, 0) == Folded(s)) && forall i | i >= |s| :: Rest(s, i) == ""
  {
    assert s[0..] == s;
  }

  lemma RestStep(s: string, i: nat)
    requires i < |s|
    ensures Rest(s, i) == Lead(i) + s[i..if i + Limit > |s| then |s| else i + Limit] + Rest(s, i + Limit)
  {
    var tail := s[i..];
    if i + Limit < |s| {
      assert tail[..Limit] == s[i..i + Limit] && tail[Limit..] == s[i + Limit..];
      assert Lead(i) + (s[i..i + Limit] + "\r\n " + Folded(s[i + Limit..])) == Lead(i) + s[i..i + Limit] + ("\r\n " + Folded(s[i + Limit..]));
    } else {
      assert tail == s[i..|s|];
    }
  }

  /** The lines of the file that one folded line takes. */
  function Pieces(s: string): (ls: seq<string>) {
    if |s| <= Limit then [s] else [s[..Limit]] + Continued(s[Limit..])
  }

  function Continued(s: string): seq<string> {
    if |s| <= Limit then [" " + s] else [" " + s[..Limit]] + Continued(s[Limit..])
  }

  // ---- The file ----

  function Written(lines: seq<string>): string {
    if lines == [] then "" else Written(lines[..|lines| - 1]) + Folded(lines[|lines| - 1]) + Break
  }

  class Writer {
    var text: string
    ghost var lines: seq<string>

    ghost predicate Valid()
      reads this
    { text == Written(lines) }

    constructor ()
      ensures Valid() && lines == []
    { text, lines := "", []; }

    method Line(s: string)
      requires Valid()
      modifies this
      ensures Valid() && lines == old(lines) + [s]
    {
      var folded := Fold(s);
      text := text + folded;
      text := text + Break;
      lines := lines + [s];
      assert lines[..|lines| - 1] == old(lines);
    }

    method KeyValue(key: string, val: string)
      requires Valid()
      modifies this
      ensures Valid() && lines == old(lines) + [Property(key, val)]
    {
      Line(key + ":" + Escape(val));
    }
  }

  function Property(key: string, val: string): string { key + ":" + Escape(val) }

  // ---- Reading ----

  /** The position of the first line break, or the length. */
  function BreakAt(s: string): (i: nat)
    ensures i <= |s| && (i < |s| ==> i + 2 <= |s|)
  {
    if s == "" || (|s| > 1 && s[0] == '\r' && s[1] == '\n') then 0 else 1 + BreakAt(s[1..])
  }

  function FileLines(s: string): seq<string>
    decreases |s|
  {
    if s == "" then []
    else
      var i := BreakAt(s);
      if i == |s| then [s] else [s[..i]] + FileLines(s[i + 2..])
  }

  predicate Continues(l: string) { l != "" && (l[0] == ' ' || l[0] == '\t') }

  /** Unfolding: a line that begins with white space continues the one before it. */
  function Unfolded(ls: seq<string>): seq<string> {
    if ls == [] then []
    else
      var front, last := Unfolded(ls[..|ls| - 1]), ls[|ls| - 1];
      if Continues(last) && front != [] then front[..|front| - 1] + [front[|front| - 1] + last[1..]] else front + [last]
  }

  function ReadLines(s: string): seq<string> { Unfolded(FileLines(s)) }

  // ---- Round trips ----

  lemma {:induction false} BreakFound(p: string, rest: string)
    requires OneLine(p)
    ensures BreakAt(p + Break + rest) == |p|
  {
    var s := p + Break + rest;
    if p != "" {
      assert p[0] in p;
      assert s[1..] == p[1..] + Break + rest;
      BreakFound(p[1..], rest);
    }
  }

  lemma FirstFileLine(p: string, rest: string)
    requires OneLine(p)
    ensures FileLines(p + Break + rest) == [p] + FileLines(rest)
  {
    BreakFound(p, rest);
    var s := p + Break + rest;
    assert s[..|p|] == p && s[|p| + 2..] == rest;
  }

  lemma {:induction false} ContinuedIsRead(s: string, rest: string)
    requires OneLine(s)
    ensures FileLines(" " + Folded(s) + Break + rest) == Continued(s) + FileLines(rest)
  {
    if |s| <= Limit {
      FirstFileLine(" " + s, rest);
    } else {
      var tail := Folded(s[Limit..]) + Break + rest;
      assert " " + Folded(s) + Break + rest == (" " + s[..Limit]) + Break + (" " + Folded(s[Limit..]) + Break + rest);
      FirstFileLine(" " + s[..Limit], " " + Folded(s[Limit..]) + Break + rest);
      ContinuedIsRead(s[Limit..], rest);
      assert [" " + s[..Limit]] + (Continued(s[Limit..]) + FileLines(rest)) == Continued(s) + FileLines(rest);
    }
  }

  lemma FoldedIsRead(s: string, rest: string)
    requires OneLine(s)
    ensures FileLines(Folded(s) + Break + rest) == Pieces(s) + FileLines(rest)
  {
    if |s| <= Limit {
      FirstFileLine(s, rest);
    } else {
      var next := " " + Folded(s[Limit..]) + Break + rest;
      assert Folded(s) + Break + rest == s[..Limit] + Break + next;
      FirstFileLine(s[..Limit], next);
      ContinuedIsRead(s[Limit..], rest);
      assert [s[..Limit]] + (Continued(s[Limit..]) + FileLines(rest)) == Pieces(s) + FileLines(rest);
    }
  }

  function AllPieces(lines: seq<string>): seq<string> {
    if lines == [] then [] else AllPieces(lines[..|lines| - 1]) + Pieces(lines[|lines| - 1])
  }

  lemma {:induction false} FileHoldsPieces(lines: seq<string>, rest: string)
    requires forall l | l in lines :: OneLine(l)
    ensures FileLines(Written(lines) + rest) == AllPieces(lines) + FileLines(rest)
  {
    if lines == [] {
      assert "" + rest == rest && [] + FileLines(rest) == FileLines(rest);
    } else {
      var front, last := lines[..|lines| - 1], lines[|lines| - 1];
      assert last in lines;
      assert Written(lines) + rest == Written(front) + (Folded(last) + Break + rest);
      FileHoldsPieces(front, Folded(last) + Break + rest);
      FoldedIsRead(last, rest);
      assert AllPieces(front) + (Pieces(last) + FileLines(rest)) == AllPieces(lines) + FileLines(rest);
    }
  }

  lemma UnfoldedStep(ls: seq<string>, l: string)
    ensures var u := Unfolded(ls);
      Unfolded(ls + [l]) == if Continues(l) && u != [] then u[..|u| - 1] + [u[|u| - 1] + l[1..]] else u + [l]
  {
    assert (ls + [l])[..|ls|] == ls;
  }

  lemma ContinuationJoins(ls: seq<string>, front: seq<string>, t: string, p: string)
    requires Unfolded(ls) == front + [t]
    ensures Unfolded(ls + [" " + p]) == front + [t + p]
  {
    hide Unfolded;
    UnfoldedStep(ls, " " + p);
    assert (" " + p)[1..] == p;
  }

  /** The first piece of a line and what is left of it. */
  lemma ContinuedFirst(s: string, ls: seq<string>)
    ensures |s| <= Limit ==> ls + Continued(s) == ls + [" " + s] && ls + Pieces(s) == ls + [s]
    ensures |s| > Limit ==> ls + Continued(s) == ls + [" " + s[..Limit]] + Continued(s[Limit..])
    ensures |s| > Limit ==> ls + Pieces(s) == ls + [s[..Limit]] + Continued(s[Limit..])
  {
    if |s| > Limit {
      AppendFirst(ls, " " + s[..Limit], Continued(s[Limit..]));
      AppendFirst(ls, s[..Limit], Continued(s[Limit..]));
    }
  }

  lemma AppendFirst(a: seq<string>, l: string, b: seq<string>)
    ensures a + ([l] + b) == a + [l] + b
  {
  }

  /** Continuation lines rejoin the line they continue. */
  lemma {:induction false} ContinuedRejoins(ls: seq<string>, front: seq<string>, t: string, s: string)
    requires Unfolded(ls) == front + [t]
    ensures Unfolded(ls + Continued(s)) == front + [t + s]
    decreases |s|
  {
    hide Unfolded, Continued, Pieces;
    var p := if |s| <= Limit then s else s[..Limit];
    ContinuationJoins(ls, front, t, p);
    ContinuedFirst(s, ls);
    if |s| > Limit {
      ContinuedRejoins(ls + [" " + p], front, t + p, s[Limit..]);
      assert t + s == t + p + s[Limit..];
    }
  }

  lemma PiecesRejoin(ls: seq<string>, s: string)
    requires !Continues(s) || Unfolded(ls) == []
    ensures Unfolded(ls + Pieces(s)) == Unfolded(ls) + [s]
  {
    hide Unfolded, Continued, Pieces;
    var p := if |s| <= Limit then s else s[..Limit];
    UnfoldedStep(ls, p);
    ContinuedFirst(s, ls);
    if |s| > Limit {
      ContinuedRejoins(ls + [p], Unfolded(ls), p, s[Limit..]);
      assert s == p + s[Limit..];
    }
  }

  /** A line that begins with white space is swallowed by the line before it. */
  lemma {:induction false} ContinuingIsSwallowed(ls: seq<string>, s: string)
    requires Continues(s) && Unfolded(ls) != []
    ensures |Unfolded(ls + Pieces(s))| == |Unfolded(ls)|
  {
    hide Unfolded, Continued, Pieces;
    var p := if |s| <= Limit then s else s[..Limit];
    var front := Unfolded(ls)[..|Unfolded(ls)| - 1];
    var ls' := ls + [p];
    UnfoldedStep(ls, p);
    ContinuedFirst(s, ls);
    if |s| > Limit { ContinuedRejoins(ls', front, Unfolded(ls)[|front|] + p[1..], s[Limit..]); }
  }

  predicate Separate(lines: seq<string>) {
    forall i | 0 < i < |lines| :: !Continues(lines[i])
  }

  /** Reading gives no more lines than were written, and fewer once one is swallowed. */
  lemma {:induction false} LinesReadBack(lines: seq<string>)
    ensures lines != [] ==> Unfolded(AllPieces(lines)) != []
    ensures if Separate(lines) then Unfolded(AllPieces(lines)) == lines else |Unfolded(AllPieces(lines))| < |lines|
  {
    hide Unfolded, Pieces, Continues;
    if lines == [] {
      NothingUnfolds();
    } else {
      var front, last := lines[..|lines| - 1], lines[|lines| - 1];
      LinesReadBack(front);
      assert lines == front + [last];
      if front != [] && Continues(last) {
        ContinuingIsSwallowed(AllPieces(front), last);
        assert !Separate(lines);
      } else {
        if front == [] { NothingUnfolds(); }
        PiecesRejoin(AllPieces(front), last);
        assert Separate(lines) <==> Separate(front);
      }
    }
  }

  lemma NothingUnfolds()
    ensures Unfolded([]) == []
  {
  }

  /** The written lines are read back exactly when no line but the first begins with white space. */
  lemma ReadsBackIff(lines: seq<string>)
    requires forall l | l in lines :: OneLine(l)
    ensures ReadLines(Written(lines)) == lines <==> Separate(lines)
  {
    assert Written(lines) + "" == Written(lines) && AllPieces(lines) + [] == AllPieces(lines);
    FileHoldsPieces(lines, "");
    LinesReadBack(lines);
  }

  // ---- Properties ----

  datatype KeyVal = KeyVal(key: string, val: string)

  predicate GoodKey(key: string) { OneLine(key) && ':' !in key && !Continues(key) && key != "" }

  function PropertyLines(kvs: seq<KeyVal>): (ls: seq<string>)
    ensures |ls| == |kvs| && forall i | 0 <= i < |kvs| :: ls[i] == Property(kvs[i].key, kvs[i].val)
  {
    seq(|kvs|, i requires 0 <= i < |kvs| => Property(kvs[i].key, kvs[i].val))
  }

  /** The name before the first colon and the unescaped value behind it. */
  function ReadProperty(l: string): KeyVal {
    var i := IndexOf(l, ':');
    if i == |l| then KeyVal(l, "") else KeyVal(l[..i], Unescape(l[i + 1..]))
  }

  function ReadProperties(ls: seq<string>): (kvs: seq<KeyVal>)
    ensures |kvs| == |ls| && forall i | 0 <= i < |ls| :: kvs[i] == ReadProperty(ls[i])
  {
    seq(|ls|, i requires 0 <= i < |ls| => ReadProperty(ls[i]))
  }

  lemma PropertyReadsBack(key: string, val: string)
    requires GoodKey(key)
    ensures OneLine(Property(key, val)) && !Continues(Property(key, val))
    ensures ReadProperty(Property(key, val)) == KeyVal(key, DropCR(val))
  {
    var l := Property(key, val);
    EscapeIsOneLine(val);
    IndexOfFirst(key, ':', Escape(val));
    assert key + [':'] + Escape(val) == l;
    assert l[..|key|] == key && l[|key| + 1..] == Escape(val);
    UnescapeEscape(val);
  }

  /** A file of properties, whatever their values, is read back property by property; only carriage returns
      are gone. */
  lemma PropertiesReadBack(kvs: seq<KeyVal>)
    requires forall kv | kv in kvs :: GoodKey(kv.key)
    ensures var read := ReadProperties(ReadLines(Written(PropertyLines(kvs))));
      |read| == |kvs| && forall i | 0 <= i < |kvs| :: read[i] == KeyVal(kvs[i].key, DropCR(kvs[i].val))
  {
    hide ReadLines, Written, GoodKey, Property, ReadProperty, OneLine, Continues;
    var ls := PropertyLines(kvs);
    forall i | 0 <= i < |kvs|
      ensures OneLine(ls[i]) && !Continues(ls[i]) && ReadProperty(ls[i]) == KeyVal(kvs[i].key, DropCR(kvs[i].val))
    {
      assert kvs[i] in kvs;
      PropertyReadsBack(kvs[i].key, kvs[i].val);
    }
    ReadsBackIff(ls);
  }

  // ---- Lengths ----

  lemma {:induction false} ContinuedLengths(s: string)
    ensures forall l | l in Continued(s) :: 1 <= |l| <= 76
    ensures (exists l | l in Continued(s) :: |l| > 75) <==> |s| >= 75
  {
    if |s| > Limit {
      ContinuedLengths(s[Limit..]);
      assert " " + s[..Limit] in Continued(s);
    } else {
      assert " " + s in Continued(s);
    }
  }

  /** The first piece has at most 75 octets and every other, with its space, at most 76; one of them passes the
      75 octets of section 3.1 of RFC 5545 exactly when the line has 150 octets or more. */
  lemma PieceLengths(s: string)
    ensures |Pieces(s)[0]| <= 75 && forall l | l in Pieces(s) :: |l| <= 76
    ensures (exists l | l in Pieces(s) :: |l| > 75) <==> |s| >= 150
  {
    if |s| > Limit {
      var rest := s[Limit..];
      ContinuedLengths(rest);
      if |s| >= 150 {
        var l :| l in Continued(rest) && |l| > 75;
        assert l in Pieces(s);
      }
    }
  }

  /** A line of 150 octets takes a continuation line of 76. */
  lemma LongContinuation()
    ensures exists l | l in Pieces(seq(150, i => 'a')) :: |l| == 76
  {
    var s := seq(150, i => 'a');
    PieceLengths(s);
  }

  /** A second line that begins with a space is read as part of the first. */
  lemma SwallowedLine()
    ensures ReadLines(Written(["A", " B"])) != ["A", " B"]
  {
    assert forall l | l in ["A", " B"] :: OneLine(l);
    ReadsBackIff(["A", " B"]);
    assert Continues(["A", " B"][1]);
  }
}
