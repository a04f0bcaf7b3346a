/** The character escapes of canonical XML, and reading them back. */
module XmlText {
  datatype Place = InText | InAttr

  /** The reference written for a character, or the character itself. */
  function Escaped(place: Place, c: char): (r: string) {
    if c == '&' then "&amp;"
    else if c == '<' then "&lt;"
    else if c == '>' && place == InText then "&gt;"
    else if c == '\"' && place == InAttr then "&quot;"
    else if c == '\r' then "&#xD;"
    else if c == '\n' && place == InAttr then "&#xA;"
    else if c == '\t' && place == InAttr then "&#x9;"
    else [c]
  }

  function Escape(place: Place, s: string): string {
    if s == "" then "" else Escaped(place, s[0]) + Escape(place, s[1..])
  }

  lemma {:induction false} EscapeAppend(place: Place, s: string, t: string)
    ensures Escape(place, s + t) == Escape(place, s) + Escape(place, t)
  {
    if s == "" {
      assert s + t == t;
    } else {
      assert (s + t)[1..] == s[1..] + t;
      EscapeAppend(place, s[1..], t);
    }
  }

  method EscapeString(place: Place, s: string) returns (b: string)
    ensures b == Escape(place, s)
  {
    b := "";
    for i := 0 to |s|
      invariant b == Escape(place, s[..i])
    {
      b := b + Escaped(place, s[i]);
      assert s[..i + 1] == s[..i] + [s[i]];
      assert Escape(place, [s[i]]) == Escaped(place, s[i]) + Escape(place, []);
      EscapeAppend(place, s[..i], [s[i]]);
    }
    assert s[..|s|] == s;
  }

  // ---- Reading ----

  function References(): seq<(string, char)> {
    [("&amp;", '&'), ("&lt;", '<'), ("&gt;", '>'), ("&quot;", '\"'), ("&#xD;", '\r'), ("&#xA;", '\n'), ("&#x9;", '\t')]
  }

  /** The first of the references that `s` begins with. */
  function Match(s: string, refs: seq<(string, char)>): (k: nat)
    ensures k <= |refs| && (k < |refs| ==> refs[k].0 <= s)
    decreases |refs|
  {
    if refs == [] then 0 else if refs[0].0 <= s then 0 else 1 + Match(s, refs[1..])
  }

  /** What an XML reader makes of character data: each reference stands for its character. */
  function Unescape(s: string): string
    decreases |s|
  {
    if s == "" then ""
    else
      var k := Match(s, References());
      if s[0] == '&' && k < |References()| then [References()[k].1] + Unescape(s[|References()[k].0|..])
      else [s[0]] + Unescape(s[1..])
  }

  lemma UnescapeFirst(place: Place, c: char, rest: string)
    ensures Unescape(Escaped(place, c) + rest) == [c] + Unescape(rest)
  {
    var e, refs := Escaped(place, c), References();
    var s := e + rest;
    assert s[|e|..] == rest;
    if e == [c] {
      assert s[0] == c && s[1..] == rest;
    } else {
      var k := RefOf(c);
      assert refs[k].1 == c && refs[k].0 == e;
      assert e <= s;
      MatchFinds(s, refs, k);
    }
  }

  function RefOf(c: char): (k: nat)
    requires c in "&<>\"\r\n\t"
    ensures k < |References()| && References()[k].1 == c
  {
    if c == '&' then 0 else if c == '<' then 1 else if c == '>' then 2 else if c == '\"' then 3
    else if c == '\r' then 4 else if c == '\n' then 5 else 6
  }

  /** Neither can be a prefix of a string that begins with the other. */
  predicate Apart(a: string, b: string) {
    |a| > 3 && |b| > 3 && (a[1] != b[1] || a[3] != b[3])
  }

  lemma {:induction false} MatchFinds(s: string, refs: seq<(string, char)>, k: nat)
    requires k < |refs| && refs[k].0 <= s && forall i | 0 <= i < k :: Apart(refs[i].0, refs[k].0)
    ensures Match(s, refs) == k
    decreases k
  {
    if k > 0 {
      assert Apart(refs[0].0, refs[k].0);
      MatchFinds(s, refs[1..], k - 1);
    }
  }

  /** Reading the escaped text gives the text back. */
  lemma {:induction false} EscapeRoundTrip(place: Place, s: string)
    ensures Unescape(Escape(place, s)) == s
  {
    if s != "" {
      EscapeRoundTrip(place, s[1..]);
      UnescapeFirst(place, s[0], Escape(place, s[1..]));
    }
  }

  /** Neither ends the text or the attribute value nor is normalised by a reader. */
  predicate Safe(place: Place, c: char) {
    c !in (if place == InText then "<>\r" else "<\"\r\n\t")
  }

  lemma EscapedIsSafe(place: Place, c: char)
    ensures forall d | d in Escaped(place, c) :: Safe(place, d)
  {
  }

  lemma {:induction false} EscapeIsSafe(place: Place, s: string)
    ensures forall d | d in Escape(place, s) :: Safe(place, d)
  {
    hide Safe, Escaped;
    if s != "" {
      EscapedIsSafe(place, s[0]);
      EscapeIsSafe(place, s[1..]);
    }
  }

  /** The references written in text and in attribute values; quotes and white space stay as they are in text, '>' in values. */
  lemma KnownEscapes()
    ensures Escape(InText, "a&<>") == "a&amp;&lt;&gt;" && Escape(InText, "\"\r\n\t") == "\"&#xD;\n\t"
    ensures Escape(InAttr, "a&<>") == "a&amp;&lt;>" && Escape(InAttr, "\"\r\n\t") == "&quot;&#xD;&#xA;&#x9;"
  {
    hide Escape;
    FourEscaped(InText, 'a', '&', '<', '>');
    FourEscaped(InAttr, 'a', '&', '<', '>');
    FourEscaped(InText, '\"', '\r', '\n', '\t');
    FourEscaped(InAttr, '\"', '\r', '\n', '\t');
  }

  lemma FourEscaped(place: Place, a: char, b: char, c: char, d: char)
    ensures Escape(place, [a, b, c, d]) == Escaped(place, a) + Escaped(place, b) + Escaped(place, c) + Escaped(place, d)
  {
    hide Escaped;
    NothingEscaped(place);
    EscapedFour(place, a, b, c, d, []);
    assert [a, b, c, d] + [] == [a, b, c, d];
  }

  lemma NothingEscaped(place: Place)
    ensures Escape(place, []) == ""
  {
  }

  lemma EscapedFirst(place: Place, a: char, rest: string)
    ensures Escape(place, [a] + rest) == Escaped(place, a) + Escape(place, rest)
  {
    assert ([a] + rest)[1..] == rest;
  }

  lemma EscapedFour(place: Place, a: char, b: char, c: char, d: char, rest: string)
    ensures Escape(place, [a, b, c, d] + rest)
      == Escaped(place, a) + (Escaped(place, b) + (Escaped(place, c) + (Escaped(place, d) + Escape(place, rest))))
  {
    hide *;
    EscapedFirst(place, d, rest);
    EscapedFirst(place, c, [d] + rest);
    EscapedFirst(place, b, [c] + ([d] + rest));
    EscapedFirst(place, a, [b] + ([c] + ([d] + rest)));
    assert [a, b, c, d] + rest == [a] + ([b] + ([c] + ([d] + rest)));
  }
}
