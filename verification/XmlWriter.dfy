/** The canonicalising writer in the form of the source: tokens in, tags out, two stacks of namespaces. */
module XmlWriter {
  import opened Wrappers
  import opened Sorting
  import opened XmlCanon
  import opened XmlMeaning
  import opened XmlLaws
  import T = Text
  import X = XmlExclusive

  datatype Token = Start(name: Name, attrs: seq<Attr>) | End(name: Name) | Data(text: string) | Dropped

  datatype OutToken =
    | Open(prefix: string, local: string, decls: seq<Decl>, attrs: seq<OutAttr>)
    | Close(prefix: string, local: string)
    | Text(text: string)

  /** The tokens the decoder yields for a document. */
  function Flatten(nodes: seq<Node>): seq<Token> {
    if nodes == [] then []
    else
      (match nodes[0]
       case Element(name, attrs, children) => [Start(name, attrs)] + Flatten(children) + [End(name)]
       case Chars(text) => [Data(text)]
       case Comment(_) => [Dropped]) + Flatten(nodes[1..])
  }

  function FlattenOut(outs: seq<OutNode>): seq<OutToken> {
    if outs == [] then []
    else
      (match outs[0]
       case OutElement(prefix, local, ds, attrs, children) =>
         [Open(prefix, local, ds, attrs)] + FlattenOut(children) + [Close(prefix, local)]
       case OutChars(text) => [Text(text)]) + FlattenOut(outs[1..])
  }

  // ---- The writer's state, token by token ----

  datatype State = State(out: seq<OutToken>, scope: seq<Scope>, rendered: seq<Scope>)

  predicate Deep(s: State) { |s.scope| == |s.rendered| && |s.scope| > 0 }

  function Top(stack: seq<Scope>): Scope
    requires stack != []
  { stack[|stack| - 1] }

  /** Well-formed XML: the attributes of a tag have different names. */
  predicate NamesDiffer(attrs: seq<Attr>) {
    forall i, j | 0 <= i < j < |attrs| :: attrs[i].name != attrs[j].name
  }

  lemma NamesDifferIsDistinct(attrs: seq<Attr>)
    requires NamesDiffer(attrs)
    ensures DistinctNames(Plain(attrs))
  {
  }

  ghost function OpenFor(name: Name, plain: set<Attr>, scope: Scope, rendered: Scope, inclusive: set<string>): OutToken
    requires DistinctNames(plain)
  {
    var tag := Tag(name, plain, scope, rendered, inclusive, []);
    Open(tag.prefix, tag.local, tag.decls, tag.attrs)
  }

  ghost function Apply(s: State, t: Token, inclusive: set<string>): State
    requires Deep(s) && (t.Start? ==> NamesDiffer(t.attrs)) && (t.End? ==> |s.scope| > 1)
    ensures Deep(Apply(s, t, inclusive))
  {
    match t
    case Start(name, attrs) =>
      NamesDifferIsDistinct(attrs);
      var scope := Layer(Top(s.scope), attrs);
      State(s.out + [OpenFor(name, Plain(attrs), scope, Top(s.rendered), inclusive)], s.scope + [scope],
            s.rendered + [Below(name, Plain(attrs), scope, Top(s.rendered), inclusive)])
    case End(name) =>
      State(s.out + [Close(NamePrefix(name, Top(s.scope)), name.local)],
            s.scope[..|s.scope| - 1], s.rendered[..|s.rendered| - 1])
    case Data(text) => s.(out := s.out + [Text(text)])
    case Dropped => s
  }

  /** The tokens never close more than they opened, and every tag is well formed. */
  predicate Nested(tokens: seq<Token>, depth: nat)
    decreases |tokens|
  {
    tokens == [] ||
    (match tokens[0]
     case Start(_, attrs) => NamesDiffer(attrs) && Nested(tokens[1..], depth + 1)
     case End(_) => depth > 1 && Nested(tokens[1..], depth - 1)
     case _ => Nested(tokens[1..], depth))
  }

  ghost function Run(s: State, tokens: seq<Token>, inclusive: set<string>): State
    requires Deep(s) && Nested(tokens, |s.scope|)
    decreases |tokens|
  {
    if tokens == [] then s else Run(Apply(s, tokens[0], inclusive), tokens[1..], inclusive)
  }

  // ---- Where the code has no choice ----

  /** No two walks of the map answer differently for the URI. */
  ghost predicate Settled(uri: string, scope: Scope) {
    uri == "" || uri == Lookup(scope, "") || SinglePrefix(uri, scope)
  }

  /** Two calls of `prefixFor` for one URI, as for a start tag and its end tag, are sure to agree exactly when
      the URI is the default namespace or has at most one prefix. */
  lemma AnswersAgreeIff(uri: string, scope: Scope)
    ensures (forall p, q | IsPrefixFor(uri, scope, p) && IsPrefixFor(uri, scope, q) :: p == q)
      <==> (uri == Lookup(scope, "") || SinglePrefix(uri, scope))
  {
    if uri != Lookup(scope, "") && !SinglePrefix(uri, scope) {
      var p, q :| Binds(scope, p, uri) && Binds(scope, q, uri) && p != q;
      assert IsPrefixFor(uri, scope, p) && IsPrefixFor(uri, scope, q);
    }
  }

  /** An element without attributes declares the answer to one call and carries the answer to another. Its name
      is sure to resolve exactly when the answers are sure to agree or every prefix of the URI is an inclusive
      one or resolves already. */
  lemma NameSurelyResolvesIff(uri: string, scope: Scope, rendered: Scope, inclusive: set<string>)
    requires uri != "" && Declared(uri, scope) && rendered.Keys <= scope.Keys
    ensures (forall p, q | IsPrefixFor(uri, scope, p) && IsPrefixFor(uri, scope, q) ::
              ReadPrefix(q, Render(ToEmit({p} + inclusive, scope, rendered), scope, rendered)) == Some(uri))
      <==> (Settled(uri, scope) || forall q | Binds(scope, q, uri) :: q in inclusive || ReadPrefix(q, rendered) == Some(uri))
  {
    var w :| w in scope && scope[w] == uri;
    assert w == "" || Binds(scope, w, uri);
    if !Settled(uri, scope) {
      var x, y :| Binds(scope, x, uri) && Binds(scope, y, uri) && x != y;
      forall q | Binds(scope, q, uri) && q !in inclusive && ReadPrefix(q, rendered) != Some(uri)
        ensures exists p :: (
          && IsPrefixFor(uri, scope, p) && IsPrefixFor(uri, scope, q)
          && ReadPrefix(q, Render(ToEmit({p} + inclusive, scope, rendered), scope, rendered)) != Some(uri))
      {
        var p := if q == x then y else x;
        assert IsPrefixFor(uri, scope, p) && IsPrefixFor(uri, scope, q);
      }
    }
  }

  /** With two prefixes for one URI the element may declare one and carry the other. */
  lemma AmbiguousNameCanBeLost()
    ensures var scope: Scope := map["a" := "u", "b" := "u"];
      && IsPrefixFor("u", scope, "a") && IsPrefixFor("u", scope, "b")
      && ReadPrefix("b", Render(ToEmit({"a"}, scope, map[]), scope, map[])) == None
  {
    var scope: Scope := map["a" := "u", "b" := "u"];
    assert Binds(scope, "a", "u") && Binds(scope, "b", "u");
  }

  ghost predicate ClearTag(name: Name, plain: set<Attr>, scope: Scope) {
    Settled(name.space, scope) && forall a | a in plain :: Settled(a.name.space, scope)
  }

  lemma SettledAnswers(uri: string, scope: Scope, p: string)
    requires uri != "" && Settled(uri, scope) && IsPrefixFor(uri, scope, p)
    ensures p == PrefixFor(uri, scope)
  {
  }

  /** The code has no choice at any tag. */
  ghost predicate Clear(tokens: seq<Token>, scopes: seq<Scope>)
    requires scopes != [] && Nested(tokens, |scopes|)
    decreases |tokens|
  {
    tokens == [] ||
    (match tokens[0]
     case Start(name, attrs) =>
       var scope := Layer(Top(scopes), attrs);
       ClearTag(name, Plain(attrs), scope) && Clear(tokens[1..], scopes + [scope])
     case End(name) => Settled(name.space, Top(scopes)) && Clear(tokens[1..], scopes[..|scopes| - 1])
     case _ => Clear(tokens[1..], scopes))
  }

  lemma UsedByOneMore(name: Name, plain: set<Attr>, a: Attr, scope: Scope)
    ensures Used(name, plain + {a}, scope, {})
      == Used(name, plain, scope, {}) + (if a.name.space != "" then {PrefixFor(a.name.space, scope)} else {})
  {
  }

  lemma UsedInclusive(name: Name, plain: set<Attr>, scope: Scope, inclusive: set<string>)
    ensures Used(name, {}, scope, {}) == {NamePrefix(name, scope)}
    ensures Used(name, plain, scope, inclusive) == Used(name, plain, scope, {}) + inclusive
  {
  }

  function Elems(q: seq<Attr>): set<Attr> { set a | a in q }

  class Writer {
    var out: seq<OutToken>
    var scope: seq<Scope>
    var rendered: seq<Scope>
    const inclusive: set<string>

    ghost predicate Valid()
      reads this
    { |scope| == |rendered| && |scope| > 0 }

    ghost function Value(): State
      reads this
    { State(out, scope, rendered) }

    constructor (inclusive: set<string>)
      ensures Valid() && Value() == State([], [map[]], [map[]]) && this.inclusive == inclusive
    {
      out, scope, rendered := [], [map[]], [map[]];
      this.inclusive := inclusive;
    }

    /** Walks the map, so any bound prefix may come back. */
    static method FindPrefix(uri: string, scope: Scope) returns (p: string)
      ensures IsPrefixFor(uri, scope, p)
    {
      if uri == Lookup(scope, "") { return ""; }
      var bound := set q | q in scope && q != "" && scope[q] == uri;
      if bound != {} {
        p :| p in bound;
        assert Binds(scope, p, uri);
      } else {
        forall q ensures !Binds(scope, q, uri) { assert q !in bound; }
        p := uri;
      }
    }

    static method NameOf(n: Name, scope: Scope) returns (p: string)
      ensures Settled(n.space, scope) ==> p == NamePrefix(n, scope)
    {
      if n.space == "" { return ""; }
      p := FindPrefix(n.space, scope);
      if Settled(n.space, scope) { SettledAnswers(n.space, scope, p); }
    }

    /** Layers the declarations and keeps the other attributes. */
    static method Declare(parent: Scope, attrs: seq<Attr>) returns (sc: Scope, plain: seq<Attr>)
      requires NamesDiffer(attrs)
      ensures sc == Layer(parent, attrs) && NamesDiffer(plain) && Elems(plain) == Plain(attrs)
    {
      sc, plain := parent, [];
      var i := 0;
      while i < |attrs|
        invariant 0 <= i <= |attrs| && sc == Layer(parent, attrs[..i]) && NamesDiffer(plain)
        invariant forall a :: a in plain <==> a in Plain(attrs[..i])
      {
        var a := attrs[i];
        assert attrs[..i + 1][..i] == attrs[..i];
        assert attrs[..i + 1] == attrs[..i] + [a];
        if a.name.space == "xmlns" {
          sc := sc[a.name.local := a.value];
        } else if a.name.local == "xmlns" {
          sc := sc["" := a.value];
        } else {
          assert forall b | b in plain :: b.name != a.name;
          plain := plain + [a];
        }
        i := i + 1;
      }
      assert attrs[..|attrs|] == attrs;
    }

    static method UsedPrefixes(name: Name, plain: seq<Attr>, sc: Scope, inclusive: set<string>) returns (used: set<string>)
      ensures ClearTag(name, Elems(plain), sc) ==> used == Used(name, Elems(plain), sc, inclusive)
    {
      hide Used, IsPrefixFor, PrefixFor;
      var p := NameOf(name, sc);
      used := {p};
      UsedInclusive(name, Elems(plain), sc, inclusive);
      assert Elems(plain[..0]) == {};
      ghost var clear := ClearTag(name, Elems(plain), sc);
      var i := 0;
      while i < |plain|
        invariant 0 <= i <= |plain|
        invariant clear ==> used == Used(name, Elems(plain[..i]), sc, {})
      {
        assert plain[i] in Elems(plain);
        assert Elems(plain[..i + 1]) == Elems(plain[..i]) + {plain[i]};
        UsedByOneMore(name, Elems(plain[..i]), plain[i], sc);
        if plain[i].name.space != "" {
          var q := FindPrefix(plain[i].name.space, sc);
          if clear { SettledAnswers(plain[i].name.space, sc, q); }
          used := used + {q};
        }
        i := i + 1;
      }
      assert plain[..|plain|] == plain;
      used := used + inclusive;
    }

    /** Collects the declarations from a set in no particular order and sorts them by prefix. */
    static method SortDecls(emit: set<string>, sc: Scope) returns (ds: seq<Decl>)
      requires emit <= sc.Keys
      ensures ds == Decls(emit, sc)
    {
      var rest, ps: seq<string> := emit, [];
      while rest != {}
        invariant rest <= emit && Ascending(StringLess, ps) && forall p :: p in ps <==> p in emit - rest
        decreases |rest|
      {
        var p :| p in rest;
        StringsAreOrdered((set y | y in ps) + {p});
        ps := InsertAscending(StringLess, ps, p);
        rest := rest - {p};
      }
      StringsAreOrdered(emit);
      SortedIsUnique(StringLess, emit, ps);
      ds := seq(|ps|, i requires 0 <= i < |ps| => assert ps[i] in ps; Decl(ps[i], sc[ps[i]]));
    }

    /** Sorts by namespace URI and local name. */
    static method SortAttrs(plain: seq<Attr>) returns (q: seq<Attr>)
      requires NamesDiffer(plain) && DistinctNames(Elems(plain))
      ensures q == SortedAttrs(Elems(plain))
    {
      q := [];
      var i := 0;
      while i < |plain|
        invariant 0 <= i <= |plain| && Ascending(AttrLess, q) && forall a :: a in q <==> a in plain[..i]
      {
        AttrsAreOrdered((set y | y in q) + {plain[i]});
        assert plain[i] !in q;
        q := InsertAscending(AttrLess, q, plain[i]);
        assert plain[..i + 1] == plain[..i] + [plain[i]];
        i := i + 1;
      }
      assert plain[..|plain|] == plain;
      AttrsAreOrdered(Elems(plain));
      SortedIsUnique(AttrLess, Elems(plain), q);
    }

    static method NameSorted(q: seq<Attr>, sc: Scope) returns (r: seq<OutAttr>)
      ensures (forall a | a in q :: Settled(a.name.space, sc)) ==> r == NameAttrs(q, sc)
    {
      r := [];
      ghost var clear := forall a | a in q :: Settled(a.name.space, sc);
      var i := 0;
      while i < |q|
        invariant 0 <= i <= |q| && |r| == i && (clear ==> r == NameAttrs(q[..i], sc))
      {
        assert q[i] in q;
        var p := NameOf(q[i].name, sc);
        r := r + [OutAttr(q[i].name.space != "", p, q[i].name.local, q[i].value)];
        i := i + 1;
      }
      assert q[..|q|] == q;
    }

    /** The tag of an element and what is rendered inside it. */
    static method StartTag(name: Name, plain: seq<Attr>, sc: Scope, parentRendered: Scope, inclusive: set<string>)
      returns (tag: OutToken, below: Scope)
      requires NamesDiffer(plain) && DistinctNames(Elems(plain))
      ensures ClearTag(name, Elems(plain), sc) ==> (
        && tag == OpenFor(name, Elems(plain), sc, parentRendered, inclusive)
        && below == Below(name, Elems(plain), sc, parentRendered, inclusive))
    {
      hide NamesDiffer, DistinctNames, Used, Settled, PrefixFor, Decls, SortedAttrs, NameAttrs, ToEmit, NamePrefix;
      var used := UsedPrefixes(name, plain, sc, inclusive);
      var prefix := NameOf(name, sc);
      var emit := ToEmit(used, sc, parentRendered);
      var decls := SortDecls(emit, sc);
      below := parentRendered + (map p | p in emit :: sc[p]);
      var sorted := SortAttrs(plain);
      assert forall a | a in sorted :: a in Elems(plain);
      var named := NameSorted(sorted, sc);
      tag := Open(prefix, name.local, decls, named);
    }

    method WriteStart(name: Name, attrs: seq<Attr>)
      requires Valid() && NamesDiffer(attrs)
      modifies this
      ensures Valid()
      ensures scope == old(scope) + [Layer(Top(old(scope)), attrs)]
      ensures |rendered| == |old(rendered)| + 1 && rendered[..|old(rendered)|] == old(rendered)
      ensures ClearTag(name, Plain(attrs), Top(scope)) ==> Value() == Apply(old(Value()), Start(name, attrs), inclusive)
    {
      hide Layer, Plain, NamesDiffer, DistinctNames, Elems, OpenFor, Below, ClearTag;
      var sc, plain := Declare(scope[|scope| - 1], attrs);
      NamesDifferIsDistinct(attrs);
      var tag, below := StartTag(name, plain, sc, rendered[|rendered| - 1], inclusive);
      scope := scope + [sc];
      rendered := rendered + [below];
      out := out + [tag];
    }

    method WriteEnd(name: Name)
      requires Valid() && |scope| > 1
      modifies this
      ensures Valid()
      ensures scope == old(scope)[..|old(scope)| - 1] && rendered == old(rendered)[..|old(rendered)| - 1]
      ensures Settled(name.space, Top(old(scope))) ==> Value() == Apply(old(Value()), End(name), inclusive)
    {
      var prefix := NameOf(name, scope[|scope| - 1]);
      out := out + [Close(prefix, name.local)];
      scope := scope[..|scope| - 1];
      rendered := rendered[..|rendered| - 1];
    }

    method WriteAll(tokens: seq<Token>)
      requires Valid() && Nested(tokens, |scope|)
      modifies this
      ensures Valid()
      ensures Clear(tokens, old(scope)) ==> Value() == Run(old(Value()), tokens, inclusive)
    {
      ghost var clear := Clear(tokens, scope);
      var i := 0;
      while i < |tokens|
        invariant 0 <= i <= |tokens| && Valid() && Nested(tokens[i..], |scope|)
        invariant clear ==> Clear(tokens[i..], scope) && Run(old(Value()), tokens, inclusive) == Run(Value(), tokens[i..], inclusive)
      {
        assert tokens[i..][0] == tokens[i] && tokens[i..][1..] == tokens[i + 1..];
        match tokens[i] {
          case Start(name, attrs) => WriteStart(name, attrs);
          case End(name) => WriteEnd(name);
          case Data(text) => out := out + [Text(text)];
          case Dropped =>
        }
        i := i + 1;
      }
    }
  }

  // ---- The token loop computes the canonical tree ----

  /** The document's tags are well-formed XML. */
  predicate WellTagged(nodes: seq<Node>) {
    forall n | n in nodes :: n.Element? ==> NamesDiffer(n.attrs) && WellTagged(n.children)
  }

  /** How one node's tokens begin a longer stream. */
  lemma FlattenFirst(nodes: seq<Node>, rest: seq<Token>)
    requires nodes != []
    ensures nodes[0].Element? ==> (
      Flatten(nodes) + rest == [Start(nodes[0].name, nodes[0].attrs)]
        + (Flatten(nodes[0].children) + ([End(nodes[0].name)] + (Flatten(nodes[1..]) + rest))))
    ensures nodes[0].Chars? ==> Flatten(nodes) + rest == [Data(nodes[0].text)] + (Flatten(nodes[1..]) + rest)
    ensures nodes[0].Comment? ==> Flatten(nodes) + rest == [Dropped] + (Flatten(nodes[1..]) + rest)
  {
    var tail := Flatten(nodes[1..]);
    match nodes[0]
    case Element(name, attrs, children) => Regroup([Start(name, attrs)], Flatten(children), [End(name)], tail, rest);
    case Chars(text) => Regroup([Data(text)], [], [], tail, rest);
    case Comment(_) => Regroup([Dropped], [], [], tail, rest);
  }

  lemma Regroup<T>(a: seq<T>, b: seq<T>, c: seq<T>, d: seq<T>, e: seq<T>)
    ensures (a + b + c + d) + e == a + (b + (c + (d + e))) && (a + d) + e == a + (d + e)
  {
  }

  predicate Admits(t: Token, depth: nat) {
    (t.Start? ==> NamesDiffer(t.attrs)) && (t.End? ==> depth > 1)
  }

  function DepthAfter(t: Token, depth: nat): nat
    requires Admits(t, depth)
  {
    if t.Start? then depth + 1 else if t.End? then depth - 1 else depth
  }

  lemma NestedFirst(t: Token, tokens: seq<Token>, depth: nat)
    ensures Nested([t] + tokens, depth) <==> Admits(t, depth) && Nested(tokens, DepthAfter(t, depth))
  {
    assert ([t] + tokens)[1..] == tokens;
  }

  lemma RunFirst(s: State, t: Token, tokens: seq<Token>, inclusive: set<string>)
    requires Deep(s) && Nested([t] + tokens, |s.scope|)
    ensures Admits(t, |s.scope|) && Nested(tokens, |Apply(s, t, inclusive).scope|)
    ensures Run(s, [t] + tokens, inclusive) == Run(Apply(s, t, inclusive), tokens, inclusive)
  {
    NestedFirst(t, tokens, |s.scope|);
    assert ([t] + tokens)[1..] == tokens;
  }

  lemma {:induction false} FlattenNests(nodes: seq<Node>, rest: seq<Token>, depth: nat)
    requires WellTagged(nodes) && depth > 0 && Nested(rest, depth)
    ensures Nested(Flatten(nodes) + rest, depth)
    decreases nodes
  {
    hide Nested, Flatten, NamesDiffer;
    if nodes == [] {
      FlattenNone(rest);
    } else {
      var tail := Flatten(nodes[1..]) + rest;
      FlattenFirst(nodes, rest);
      FlattenNests(nodes[1..], rest, depth);
      assert nodes[0] in nodes;
      match nodes[0]
      case Element(name, attrs, children) =>
        NestedFirst(End(name), tail, depth + 1);
        FlattenNests(children, [End(name)] + tail, depth + 1);
        NestedFirst(Start(name, attrs), Flatten(children) + ([End(name)] + tail), depth);
      case Chars(text) => NestedFirst(Data(text), tail, depth);
      case Comment(_) => NestedFirst(Dropped, tail, depth);
    }
  }

  lemma FlattenNone(rest: seq<Token>)
    ensures Flatten([]) + rest == rest
  {
  }

  lemma FlattenOutFirst(out: OutNode, outs: seq<OutNode>)
    ensures out.OutChars? ==> FlattenOut([out] + outs) == [Text(out.text)] + FlattenOut(outs)
    ensures out.OutElement? ==> (
      FlattenOut([out] + outs) == [Open(out.prefix, out.local, out.decls, out.attrs)]
        + FlattenOut(out.children) + [Close(out.prefix, out.local)] + FlattenOut(outs))
  {
    var all := [out] + outs;
    assert all[0] == out && all[1..] == outs;
  }

  /** The state once `outs` is written in state `s`. */
  function Wrote(s: State, outs: seq<OutNode>): State {
    s.(out := s.out + FlattenOut(outs))
  }

  ghost function CanonAt(nodes: seq<Node>, s: State, inclusive: set<string>): seq<OutNode>
    requires Distinct(nodes) && Deep(s)
  {
    Canon(nodes, Top(s.scope), Top(s.rendered), inclusive)
  }

  /** Running over the tokens of a document appends the tokens of its canonical form and leaves both stacks
      as they were. */
  lemma {:induction false} RunIsCanon(nodes: seq<Node>, rest: seq<Token>, s: State, inclusive: set<string>)
    requires WellTagged(nodes) && Distinct(nodes) && Deep(s) && Nested(rest, |s.scope|)
    ensures Nested(Flatten(nodes) + rest, |s.scope|)
    ensures Run(s, Flatten(nodes) + rest, inclusive) == Run(Wrote(s, CanonAt(nodes, s, inclusive)), rest, inclusive)
    decreases nodes, 1
  {
    hide Nested, Flatten, FlattenOut, Run, NamesDiffer;
    FlattenNests(nodes, rest, |s.scope|);
    if nodes == [] {
      FlattenNone(rest);
      WroteNothing(s);
    } else {
      var tail := Flatten(nodes[1..]) + rest;
      FlattenFirst(nodes, rest);
      FlattenNests(nodes[1..], rest, |s.scope|);
      match nodes[0]
      case Element(_, _, _) => RunElement(nodes, rest, s, inclusive);
      case Chars(text) =>
        RunFirst(s, Data(text), tail, inclusive);
        var s1 := Apply(s, Data(text), inclusive);
        RunIsCanon(nodes[1..], rest, s1, inclusive);
        FlattenOutFirst(OutChars(text), CanonAt(nodes[1..], s, inclusive));
        assert Wrote(s1, CanonAt(nodes[1..], s, inclusive)) == Wrote(s, CanonAt(nodes, s, inclusive));
      case Comment(_) =>
        RunFirst(s, Dropped, tail, inclusive);
        RunIsCanon(nodes[1..], rest, s, inclusive);
    }
  }

  lemma WroteNothing(s: State)
    ensures Wrote(s, []) == s
  {
  }

  /** A tag, its contents and its closing. */
  lemma WroteElement(e: Node, s: State, s3: State, inclusive: set<string>, outs: seq<OutNode>)
    requires e.Element? && Deep(s) && Distinct([e]) && Distinct(e.children) && NamesDiffer(e.attrs)
    requires var s1 := Apply(s, Start(e.name, e.attrs), inclusive);
      s3 == Apply(Wrote(s1, CanonAt(e.children, s1, inclusive)), End(e.name), inclusive)
    ensures s3.scope == s.scope && s3.rendered == s.rendered
    ensures Wrote(s3, outs) == Wrote(s, [CanonElement(e, Top(s.scope), Top(s.rendered), inclusive)] + outs)
  {
    hide FlattenOut, Layer, Plain, PrefixFor, Used, ToEmit, Decls, NameAttrs, SortedAttrs, Canon, NamesDiffer, DistinctNames, Distinct;
    assert s3.scope == s.scope && s3.rendered == s.rendered;
    FlattenOutFirst(CanonElement(e, Top(s.scope), Top(s.rendered), inclusive), outs);
  }

  lemma {:induction false} RunElement(nodes: seq<Node>, rest: seq<Token>, s: State, inclusive: set<string>)
    requires WellTagged(nodes) && Distinct(nodes) && Deep(s) && Nested(rest, |s.scope|)
    requires nodes != [] && nodes[0].Element? && Nested(Flatten(nodes) + rest, |s.scope|)
    ensures Run(s, Flatten(nodes) + rest, inclusive) == Run(Wrote(s, CanonAt(nodes, s, inclusive)), rest, inclusive)
    decreases nodes, 0
  {
    hide Nested, Flatten, FlattenOut, Run, NamesDiffer, Apply, CanonElement;
    var e, tail := nodes[0], Flatten(nodes[1..]) + rest;
    assert e in nodes;
    FlattenFirst(nodes, rest);
    FlattenNests(nodes[1..], rest, |s.scope|);
    var closing := [End(e.name)] + tail;
    RunFirst(s, Start(e.name, e.attrs), Flatten(e.children) + closing, inclusive);
    var s1 := Apply(s, Start(e.name, e.attrs), inclusive);
    StartDeepens(s, e.name, e.attrs, inclusive);
    NestedFirst(End(e.name), tail, |s1.scope|);
    RunIsCanon(e.children, closing, s1, inclusive);
    var s2 := Wrote(s1, CanonAt(e.children, s1, inclusive));
    RunFirst(s2, End(e.name), tail, inclusive);
    var s3 := Apply(s2, End(e.name), inclusive);
    WroteElement(e, s, s3, inclusive, CanonAt(nodes[1..], s, inclusive));
    RunIsCanon(nodes[1..], rest, s3, inclusive);
  }

  lemma StartDeepens(s: State, name: Name, attrs: seq<Attr>, inclusive: set<string>)
    requires Deep(s) && NamesDiffer(attrs)
    ensures |Apply(s, Start(name, attrs), inclusive).scope| == |s.scope| + 1
  {
  }

  // ---- Whole documents ----

  lemma ClearFirst(t: Token, tokens: seq<Token>, scopes: seq<Scope>)
    requires scopes != [] && Nested([t] + tokens, |scopes|) && Nested(tokens, DepthAfter(t, |scopes|))
    requires t.Start? ==> ClearTag(t.name, Plain(t.attrs), Layer(Top(scopes), t.attrs)) && Clear(tokens, scopes + [Layer(Top(scopes), t.attrs)])
    requires t.End? ==> Settled(t.name.space, Top(scopes)) && Clear(tokens, scopes[..|scopes| - 1])
    requires t.Data? || t.Dropped? ==> Clear(tokens, scopes)
    ensures Clear([t] + tokens, scopes)
  {
    assert ([t] + tokens)[1..] == tokens;
  }

  lemma OneToOneClearsTag(name: Name, plain: set<Attr>, scope: Scope, binding: Scope)
    requires Sub(scope, binding) && OneToOne(binding)
    ensures ClearTag(name, plain, scope)
  {
    OneToOneIsUnambiguous(name.space, scope, binding);
    forall a | a in plain ensures Settled(a.name.space, scope) { OneToOneIsUnambiguous(a.name.space, scope, binding); }
  }

  /** A document that binds each prefix to one URI and each URI to one prefix leaves no choice. */
  lemma {:induction false} OneToOneIsClear(nodes: seq<Node>, rest: seq<Token>, scopes: seq<Scope>, binding: Scope)
    requires WellTagged(nodes) && scopes != [] && Nested(rest, |scopes|) && Clear(rest, scopes)
    requires Within(nodes, binding) && Sub(Top(scopes), binding) && OneToOne(binding)
    ensures Nested(Flatten(nodes) + rest, |scopes|) && Clear(Flatten(nodes) + rest, scopes)
    decreases nodes
  {
    hide Nested, Flatten, Clear, NamesDiffer, Sub, OneToOne, ClearTag, Settled, Layer;
    FlattenNests(nodes, rest, |scopes|);
    if nodes == [] {
      FlattenNone(rest);
    } else {
      var tail := Flatten(nodes[1..]) + rest;
      FlattenFirst(nodes, rest);
      OneToOneIsClear(nodes[1..], rest, scopes, binding);
      assert nodes[0] in nodes;
      match nodes[0]
      case Element(name, attrs, children) =>
        var scope := Layer(Top(scopes), attrs);
        var inner := scopes + [scope];
        LayerStaysWithin(Top(scopes), attrs, binding);
        OneToOneClearsTag(name, Plain(attrs), scope, binding);
        SettledName(name, Plain(attrs), scope);
        NestedFirst(End(name), tail, |inner|);
        assert inner[..|inner| - 1] == scopes;
        ClearFirst(End(name), tail, inner);
        OneToOneIsClear(children, [End(name)] + tail, inner, binding);
        NestedFirst(Start(name, attrs), Flatten(children) + ([End(name)] + tail), |scopes|);
        ClearFirst(Start(name, attrs), Flatten(children) + ([End(name)] + tail), scopes);
      case Chars(text) =>
        NestedFirst(Data(text), tail, |scopes|);
        ClearFirst(Data(text), tail, scopes);
      case Comment(_) =>
        NestedFirst(Dropped, tail, |scopes|);
        ClearFirst(Dropped, tail, scopes);
    }
  }

  lemma SettledName(name: Name, plain: set<Attr>, scope: Scope)
    requires ClearTag(name, plain, scope)
    ensures Settled(name.space, scope)
  {
  }

  /** From the initial state the loop writes the canonical form of the document and is back at the initial
      depth of both stacks. */
  lemma DocumentIsCanonical(nodes: seq<Node>, inclusive: set<string>)
    requires WellTagged(nodes) && Distinct(nodes)
    ensures Nested(Flatten(nodes), 1)
    ensures Run(State([], [map[]], [map[]]), Flatten(nodes), inclusive)
      == State(FlattenOut(Canon(nodes, map[], map[], inclusive)), [map[]], [map[]])
  {
    hide Flatten, FlattenOut, Canon;
    assert Flatten(nodes) + [] == Flatten(nodes);
    RunIsCanon(nodes, [], State([], [map[]], [map[]]), inclusive);
    assert [] + FlattenOut(Canon(nodes, map[], map[], inclusive)) == FlattenOut(Canon(nodes, map[], map[], inclusive));
  }

  /** The prefixes of an inclusive list: trimmed, and the empty ones left out. */
  function Trimmed(list: seq<string>): set<string> {
    set s | s in list && T.TrimSpace(s) != "" :: T.TrimSpace(s)
  }

  method SetOf(list: seq<string>) returns (prefixes: set<string>)
    ensures prefixes == Trimmed(list) && "" !in prefixes
  {
    hide T.TrimSpace;
    prefixes := {};
    for i := 0 to |list|
      invariant prefixes == Trimmed(list[..i])
    {
      assert list[..i + 1] == list[..i] + [list[i]];
      var s := T.TrimSpace(list[i]);
      if s != "" { prefixes := prefixes + {s}; }
    }
    assert list[..|list|] == list;
  }

  /** The loop over the tokens of a whole document whose names leave no choice. */
  method CanonicalizeExclusive(tokens: seq<Token>, inclusive: seq<string>, ghost nodes: seq<Node>, ghost binding: Scope)
    returns (out: seq<OutToken>)
    requires tokens == Flatten(nodes) && WellTagged(nodes) && Distinct(nodes)
    requires Within(nodes, binding) && OneToOne(binding)
    ensures out == FlattenOut(Canon(nodes, map[], map[], Trimmed(inclusive)))
    ensures X.IsExclusive(nodes, Canon(nodes, map[], map[], Trimmed(inclusive)), map[], map[], Trimmed(inclusive))
  {
    hide Flatten, FlattenOut, Canon, Nested, Clear, Run, X.IsExclusive;
    X.CanonIsExclusive(nodes, map[], map[], Trimmed(inclusive));
    assert tokens + [] == tokens;
    var prefixes := SetOf(inclusive);
    DocumentIsCanonical(nodes, prefixes);
    NothingIsClear();
    OneToOneIsClear(nodes, [], [map[]], binding);
    var w := new Writer(prefixes);
    w.WriteAll(tokens);
    out := w.out;
  }

  lemma NothingIsClear()
    ensures Nested([], 1) && Clear([], [map[]])
  {
  }
}
