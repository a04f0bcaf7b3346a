/** What canonicalisation keeps: an XML reader that resolves every prefix by the nearest declaration
    finds in the output the names, attributes and text of the input, as far as they can be written. */
module XmlMeaning {
  import opened Wrappers
  import opened Sorting
  import opened XmlCanon

  // ---- Reading the output back ----

  function DeclAttr(d: Decl): Attr {
    Attr(if d.prefix == "" then Name("", "xmlns") else Name("xmlns", d.prefix), d.uri)
  }

  function DeclAttrs(ds: seq<Decl>): (r: seq<Attr>)
    ensures |r| == |ds| && forall i | 0 <= i < |ds| :: r[i] == DeclAttr(ds[i])
  {
    seq(|ds|, i requires 0 <= i < |ds| => DeclAttr(ds[i]))
  }

  /** The reader's namespaces inside an element that carries the declarations `ds`. */
  function Inside(env: Scope, ds: seq<Decl>): Scope {
    Layer(env, DeclAttrs(ds))
  }

  /** The namespace the prefix `xml` has without a declaration. */
  const XmlUri: string := "http://www.w3.org/XML/1998/namespace"

  /** What a prefix stands for; a reader refuses one that is not declared. */
  function ReadPrefix(prefix: string, env: Scope): Option<string> {
    if prefix == "" then Some(Lookup(env, ""))
    else if prefix in env then Some(env[prefix])
    else if prefix == "xml" then Some(XmlUri)
    else None
  }

  /** The default namespace does not apply to attributes, and a colon with no prefix before it is refused. */
  function ReadAttr(a: OutAttr, env: Scope): Option<Attr> {
    if !a.prefixed then Some(Attr(Name("", a.local), a.value))
    else if a.prefix == "" || ReadPrefix(a.prefix, env).None? then None
    else Some(Attr(Name(ReadPrefix(a.prefix, env).value, a.local), a.value))
  }

  predicate Readable(q: seq<OutAttr>, env: Scope) {
    forall i | 0 <= i < |q| :: ReadAttr(q[i], env).Some?
  }

  function ReadAttrs(q: seq<OutAttr>, env: Scope): (r: seq<Attr>)
    requires Readable(q, env)
    ensures |r| == |q| && forall i | 0 <= i < |q| :: r[i] == ReadAttr(q[i], env).value
  {
    seq(|q|, i requires 0 <= i < |q| => ReadAttr(q[i], env).value)
  }

  function ReadTag(prefix: string, local: string, ds: seq<Decl>, attrs: seq<OutAttr>, env: Scope,
                   children: Option<seq<Node>>): Option<Node>
  {
    if ReadPrefix(prefix, env).None? || !Readable(attrs, env) || children.None? then None
    else Some(Element(Name(ReadPrefix(prefix, env).value, local), DeclAttrs(ds) + ReadAttrs(attrs, env), children.value))
  }

  function ReadNode(out: OutNode, env: Scope): Option<Node>
    decreases out, 0
  {
    match out
    case OutElement(prefix, local, ds, attrs, children) =>
      ReadTag(prefix, local, ds, attrs, Inside(env, ds), Read(children, Inside(env, ds)))
    case OutChars(text) => Some(Chars(text))
  }

  /** The document a reader finds in the output, if it does not refuse it. */
  function Read(outs: seq<OutNode>, env: Scope): Option<seq<Node>>
    decreases outs, 1
  {
    if outs == [] then Some([])
    else Follow(ReadNode(outs[0], env), Read(outs[1..], env))
  }

  function Follow(first: Option<Node>, rest: Option<seq<Node>>): Option<seq<Node>> {
    if first.Some? && rest.Some? then Some([first.value] + rest.value) else None
  }

  // ---- Names that can be written ----

  ghost predicate Declared(uri: string, scope: Scope) { exists p :: p in scope && scope[p] == uri }

  /** An element name that survives: in no namespace where none is the default, or in a declared one. */
  ghost predicate NameKept(name: Name, scope: Scope) {
    if name.space == "" then Lookup(scope, "") == "" else Declared(name.space, scope)
  }

  /** An attribute name that survives: in no namespace, or in one that has a prefix and is not the default. */
  ghost predicate AttrKept(a: Attr, scope: Scope) {
    a.name.space == "" || (a.name.space != Lookup(scope, "") && exists p :: Binds(scope, p, a.name.space))
  }

  /** What a reader makes of the written name: one in no namespace falls into the default one. */
  function WrittenName(name: Name, scope: Scope): Name {
    if name.space == "" then Name(Lookup(scope, ""), name.local) else name
  }

  /** A tag that a reader does not refuse. */
  ghost predicate TagReadable(name: Name, plain: set<Attr>, scope: Scope) {
    (name.space == "" || Declared(name.space, scope)) && forall a | a in plain :: AttrKept(a, scope)
  }

  ghost predicate NamesReadable(nodes: seq<Node>, scope: Scope) {
    forall n | n in nodes :: n.Element? ==>
      TagReadable(n.name, Plain(n.attrs), Layer(scope, n.attrs)) && NamesReadable(n.children, Layer(scope, n.attrs))
  }

  lemma KeptIff(name: Name, plain: set<Attr>, scope: Scope)
    ensures TagKept(name, plain, scope) <==> TagReadable(name, plain, scope) && WrittenName(name, scope) == name
  {
  }

  ghost predicate TagKept(name: Name, plain: set<Attr>, scope: Scope) {
    NameKept(name, scope) && forall a | a in plain :: AttrKept(a, scope)
  }

  ghost predicate NamesKept(nodes: seq<Node>, scope: Scope) {
    forall n | n in nodes :: n.Element? ==>
      TagKept(n.name, Plain(n.attrs), Layer(scope, n.attrs)) && NamesKept(n.children, Layer(scope, n.attrs))
  }

  // ---- Names the decoder yields ----

  /** The decoder's namespace for a prefix: `xml` has its own, and an undeclared prefix stands for itself. */
  function Resolve(p: string, scope: Scope): string {
    if p == "xml" then XmlUri else if p in scope then scope[p] else p
  }

  ghost predicate DecodedTag(name: Name, plain: set<Attr>, scope: Scope) {
    && XmlUri !in scope
    && (exists p :: name.space == Resolve(p, scope))
    && (forall a | a in plain :: a.name.space == "" || exists p :: p != "" && a.name.space == Resolve(p, scope))
  }

  /** Every name of the document is one the decoder can have resolved; a prefix is never a URI with a colon. */
  ghost predicate Decoded(nodes: seq<Node>, scope: Scope) {
    forall n | n in nodes :: n.Element? ==>
      DecodedTag(n.name, Plain(n.attrs), Layer(scope, n.attrs)) && Decoded(n.children, Layer(scope, n.attrs))
  }

  // ---- One tag ----

  ghost function EmitOf(e: Node, scope: Scope, rendered: Scope, inclusive: set<string>): (emit: set<string>)
    requires e.Element?
    ensures emit <= Layer(scope, e.attrs).Keys
  {
    ToEmit(Used(e.name, Plain(e.attrs), Layer(scope, e.attrs), inclusive), Layer(scope, e.attrs), rendered)
  }

  /** Whatever a tag uses is rendered below it with the URI the source gave it. */
  lemma UsedIsRendered(used: set<string>, scope: Scope, rendered: Scope, p: string)
    requires rendered.Keys <= scope.Keys && p in used
    ensures var r := Render(ToEmit(used, scope, rendered), scope, rendered);
      r.Keys <= scope.Keys && Lookup(r, p) == Lookup(scope, p)
  {
  }

  /** An element keeps its name exactly when it is in no namespace where none is the default, or in a declared
      one. */
  lemma ElementNameResolvesIff(name: Name, plain: set<Attr>, scope: Scope, rendered: Scope, inclusive: set<string>)
    requires rendered.Keys <= scope.Keys
    ensures
      var used := Used(name, plain, scope, inclusive);
      ReadPrefix(NamePrefix(name, scope), Render(ToEmit(used, scope, rendered), scope, rendered)) == Some(name.space)
      <==> NameKept(name, scope)
  {
    UsedIsRendered(Used(name, plain, scope, inclusive), scope, rendered, NamePrefix(name, scope));
    if name.space != "" {
      DeclaredIff(name.space, scope);
    }
  }

  lemma DeclaredIff(uri: string, scope: Scope)
    requires uri != ""
    ensures Declared(uri, scope) <==> uri == Lookup(scope, "") || exists p :: Binds(scope, p, uri)
  {
    if Declared(uri, scope) {
      var p :| p in scope && scope[p] == uri;
      assert p == "" || Binds(scope, p, uri);
    }
    if p :| Binds(scope, p, uri) {
      assert p in scope && scope[p] == uri;
    }
  }

  /** An attribute keeps its name exactly when it is in no namespace, or in one that some declared prefix is bound
      to and that is not the default. */
  lemma AttrNameResolvesIff(name: Name, plain: set<Attr>, scope: Scope, rendered: Scope, inclusive: set<string>, a: Attr)
    requires rendered.Keys <= scope.Keys && a in plain
    ensures
      var used := Used(name, plain, scope, inclusive);
      ReadAttr(NameAttr(a, scope), Render(ToEmit(used, scope, rendered), scope, rendered)) == Some(a)
      <==> AttrKept(a, scope)
  {
    if a.name.space != "" {
      UsedIsRendered(Used(name, plain, scope, inclusive), scope, rendered, PrefixFor(a.name.space, scope));
    }
  }

  /** A decoded name that the writer does not keep is refused by the reader, unless it is an element's in no namespace:
      that falls into the default one. */
  lemma LostNameIsRefused(name: Name, plain: set<Attr>, scope: Scope, rendered: Scope, inclusive: set<string>)
    requires DecodedTag(name, plain, scope) && rendered.Keys <= scope.Keys
    ensures
      var env := Render(ToEmit(Used(name, plain, scope, inclusive), scope, rendered), scope, rendered);
      && (name.space != "" && !NameKept(name, scope) ==> ReadPrefix(NamePrefix(name, scope), env) == None)
      && (name.space == "" ==> ReadPrefix(NamePrefix(name, scope), env) == Some(Lookup(scope, "")))
      && (forall a | a in plain && !AttrKept(a, scope) :: ReadAttr(NameAttr(a, scope), env) == None)
  {
    UsedIsRendered(Used(name, plain, scope, inclusive), scope, rendered, NamePrefix(name, scope));
    if name.space != "" && !NameKept(name, scope) {
      var p :| name.space == Resolve(p, scope);
      UnboundIsNoPrefix(name.space, p, scope);
    }
    forall a | a in plain && !AttrKept(a, scope)
      ensures ReadAttr(NameAttr(a, scope), Render(ToEmit(Used(name, plain, scope, inclusive), scope, rendered), scope, rendered)) == None
    {
      if a.name.space != Lookup(scope, "") {
        var p :| p != "" && a.name.space == Resolve(p, scope);
        DeclaredIff(a.name.space, scope);
        UnboundIsNoPrefix(a.name.space, p, scope);
      }
    }
  }

  /** A namespace without a declaration is not itself a prefix, so it is written as one that nobody declares. */
  lemma UnboundIsNoPrefix(uri: string, p: string, scope: Scope)
    requires XmlUri !in scope && uri == Resolve(p, scope) && uri != "" && !Declared(uri, scope)
    ensures uri !in scope && uri != "xml" && PrefixFor(uri, scope) == uri
  {
    DeclaredIff(uri, scope);
  }

  /** The name a reader finds where the tag is readable. */
  lemma WrittenNameIsRead(name: Name, plain: set<Attr>, scope: Scope, rendered: Scope, inclusive: set<string>)
    requires rendered.Keys <= scope.Keys && (name.space == "" || Declared(name.space, scope))
    ensures ReadPrefix(NamePrefix(name, scope), Below(name, plain, scope, rendered, inclusive)) == Some(WrittenName(name, scope).space)
  {
    UsedIsRendered(Used(name, plain, scope, inclusive), scope, rendered, NamePrefix(name, scope));
    if name.space != "" { ElementNameResolvesIff(name, plain, scope, rendered, inclusive); }
  }

  /** Layering finds each declaration and nothing else. */
  lemma {:induction false} LayerMeaning(scope: Scope, attrs: seq<Attr>)
    requires DistinctDecls(attrs)
    ensures forall i | 0 <= i < |attrs| && IsDecl(attrs[i]) ::
      DeclPrefix(attrs[i]) in Layer(scope, attrs) && Layer(scope, attrs)[DeclPrefix(attrs[i])] == attrs[i].value
    ensures forall p | (forall i | 0 <= i < |attrs| && IsDecl(attrs[i]) :: DeclPrefix(attrs[i]) != p) ::
      (p in Layer(scope, attrs) <==> p in scope) && Lookup(Layer(scope, attrs), p) == Lookup(scope, p)
  {
    if attrs != [] {
      var front := attrs[..|attrs| - 1];
      LayerMeaning(scope, front);
      assert forall i | 0 <= i < |front| :: front[i] == attrs[i];
    }
  }

  lemma {:induction false} LayerSkipsPlain(scope: Scope, attrs: seq<Attr>, plain: seq<Attr>)
    requires forall a | a in plain :: !IsDecl(a)
    ensures Layer(scope, attrs + plain) == Layer(scope, attrs)
    decreases |plain|
  {
    if plain == [] {
      assert attrs + plain == attrs;
    } else {
      var front := plain[..|plain| - 1];
      assert plain[|plain| - 1] in plain;
      assert (attrs + plain)[..|attrs + plain| - 1] == attrs + front;
      LayerSkipsPlain(scope, attrs, front);
    }
  }

  lemma DeclAt(emit: set<string>, scope: Scope, i: nat)
    requires emit <= scope.Keys && i < |emit|
    ensures Orders(StringLess, emit) && |Sorted(StringLess, emit)| == |emit| && Sorted(StringLess, emit)[i] in emit
    ensures Decls(emit, scope)[i] == Decl(Sorted(StringLess, emit)[i], scope[Sorted(StringLess, emit)[i]])
  {
    hide StringLess, Orders;
    StringsAreOrdered(emit);
    var ps := Sorted(StringLess, emit);
    assert ps[i] in ps;
  }

  lemma DeclsDiffer(emit: set<string>, scope: Scope, i: nat, j: nat)
    requires emit <= scope.Keys && i < j < |emit|
    ensures Decls(emit, scope)[i].prefix != Decls(emit, scope)[j].prefix
  {
    hide StringLess, Orders, Decls;
    DeclAt(emit, scope, i);
    DeclAt(emit, scope, j);
    var ps := Sorted(StringLess, emit);
    assert StringLess(ps[i], ps[j]);
    StringOrder(ps[i], ps[i], ps[i]);
  }

  lemma DeclsMeaning(emit: set<string>, scope: Scope)
    requires emit <= scope.Keys
    ensures DistinctDecls(DeclAttrs(Decls(emit, scope)))
    ensures forall i | 0 <= i < |emit| :: Decls(emit, scope)[i].prefix in emit && Decls(emit, scope)[i].uri == scope[Decls(emit, scope)[i].prefix]
    ensures forall p | p in emit :: Decl(p, scope[p]) in Decls(emit, scope)
  {
    hide StringLess, Orders, Decls;
    StringsAreOrdered(emit);
    var ps, ds := Sorted(StringLess, emit), Decls(emit, scope);
    forall p | p in emit ensures Decl(p, scope[p]) in ds {
      assert p in ps;
      var i :| 0 <= i < |ps| && ps[i] == p;
      DeclAt(emit, scope, i);
    }
    forall i | 0 <= i < |emit| ensures ds[i].prefix in emit && ds[i].uri == scope[ds[i].prefix] { DeclAt(emit, scope, i); }
    forall i, j | 0 <= i < j < |ds| ensures ds[i].prefix != ds[j].prefix { DeclsDiffer(emit, scope, i, j); }
  }

  lemma InsideAt(emit: set<string>, scope: Scope, rendered: Scope, p: string)
    requires emit <= scope.Keys
    ensures var l, r := Inside(rendered, Decls(emit, scope)), Render(emit, scope, rendered);
      (p in l <==> p in r) && Lookup(l, p) == Lookup(r, p)
  {
    hide Layer, Decls;
    var ds := Decls(emit, scope);
    var attrs := DeclAttrs(ds);
    DeclsMeaning(emit, scope);
    LayerMeaning(rendered, attrs);
    if p in emit {
      var i :| 0 <= i < |ds| && ds[i] == Decl(p, scope[p]);
      assert DeclPrefix(attrs[i]) == p;
    } else {
      forall i | 0 <= i < |attrs| && IsDecl(attrs[i]) ensures DeclPrefix(attrs[i]) != p {
        assert ds[i].prefix in emit;
      }
    }
  }

  /** Inside the output tag the reader has exactly the rendered namespaces. */
  lemma InsideIsRendered(emit: set<string>, scope: Scope, rendered: Scope)
    requires emit <= scope.Keys
    ensures Inside(rendered, Decls(emit, scope)) == Render(emit, scope, rendered)
  {
    hide Inside, Decls, Render;
    var l, r := Inside(rendered, Decls(emit, scope)), Render(emit, scope, rendered);
    forall p ensures (p in l <==> p in r) && Lookup(l, p) == Lookup(r, p) {
      InsideAt(emit, scope, rendered, p);
    }
    SameScopes(l, r);
  }

  lemma SameScopes(l: Scope, r: Scope)
    requires forall p :: (p in l <==> p in r) && Lookup(l, p) == Lookup(r, p)
    ensures l == r
  {
    forall p | p in l ensures p in r && l[p] == r[p] { assert Lookup(l, p) == Lookup(r, p); }
    assert l.Keys == r.Keys;
  }

  // ---- Whole documents ----

  /** The element a reader finds where the writer put one, given what it finds inside: the name as written
      and the attributes, sorted. */
  ghost function ReadBack(e: Node, scope: Scope, rendered: Scope, inclusive: set<string>, inner: seq<Node>): Node
    requires e.Element? && Distinct([e])
  {
    assert DistinctNames(Plain(e.attrs)) by { assert e in [e]; }
    Element(WrittenName(e.name, Layer(scope, e.attrs)), DeclAttrs(Decls(EmitOf(e, scope, rendered, inclusive), Layer(scope, e.attrs))) + SortedAttrs(Plain(e.attrs)), inner)
  }

  lemma AttrsReadBack(name: Name, plain: set<Attr>, scope: Scope, rendered: Scope, inclusive: set<string>)
    requires TagReadable(name, plain, scope) && rendered.Keys <= scope.Keys && DistinctNames(plain)
    ensures
      var env, q := Below(name, plain, scope, rendered, inclusive), NameAttrs(SortedAttrs(plain), scope);
      Readable(q, env) && ReadAttrs(q, env) == SortedAttrs(plain)
  {
    var q := SortedAttrs(plain);
    forall i | 0 <= i < |q|
      ensures ReadAttr(NameAttr(q[i], scope), Below(name, plain, scope, rendered, inclusive)) == Some(q[i])
    {
      assert q[i] in q;
      AttrNameResolvesIff(name, plain, scope, rendered, inclusive, q[i]);
    }
  }

  lemma {:induction false} LayerGrows(scope: Scope, attrs: seq<Attr>)
    ensures scope.Keys <= Layer(scope, attrs).Keys
  {
    if attrs != [] { LayerGrows(scope, attrs[..|attrs| - 1]); }
  }

  /** What a reader finds of a tag is decided by its names and by what it finds inside. */
  ghost function InnerRead(e: Node, scope: Scope, rendered: Scope, inclusive: set<string>): Option<seq<Node>>
    requires e.Element? && Distinct(e.children)
  {
    var scope' := Layer(scope, e.attrs);
    var rendered' := Below(e.name, Plain(e.attrs), scope', rendered, inclusive);
    Read(Canon(e.children, scope', rendered', inclusive), rendered')
  }

  lemma ElementReads(e: Node, scope: Scope, rendered: Scope, inclusive: set<string>)
    requires e.Element? && Distinct([e]) && Distinct(e.children) && DistinctNames(Plain(e.attrs))
    ensures
      var scope', plain := Layer(scope, e.attrs), Plain(e.attrs);
      var env := Below(e.name, plain, scope', rendered, inclusive);
      ReadNode(CanonElement(e, scope, rendered, inclusive), rendered)
      == ReadTag(NamePrefix(e.name, scope'), e.name.local, Decls(EmitOf(e, scope, rendered, inclusive), scope'),
                 NameAttrs(SortedAttrs(plain), scope'), env, InnerRead(e, scope, rendered, inclusive))
  {
    hide ReadTag, Read, Canon, Inside, Decls, NameAttrs, SortedAttrs, Render;
    InsideIsRendered(EmitOf(e, scope, rendered, inclusive), Layer(scope, e.attrs), rendered);
  }

  lemma ElementReadsBack(e: Node, scope: Scope, rendered: Scope, inclusive: set<string>)
    requires e.Element? && Distinct([e]) && Distinct(e.children) && rendered.Keys <= scope.Keys
    requires TagReadable(e.name, Plain(e.attrs), Layer(scope, e.attrs)) && InnerRead(e, scope, rendered, inclusive).Some?
    ensures ReadNode(CanonElement(e, scope, rendered, inclusive), rendered)
      == Some(ReadBack(e, scope, rendered, inclusive, InnerRead(e, scope, rendered, inclusive).value))
  {
    hide CanonElement, InnerRead, ReadNode, NameAttrs, SortedAttrs, Decls, Readable, Layer;
    assert e in [e];
    var scope', plain := Layer(scope, e.attrs), Plain(e.attrs);
    LayerGrows(scope, e.attrs);
    ElementReads(e, scope, rendered, inclusive);
    WrittenNameIsRead(e.name, plain, scope', rendered, inclusive);
    AttrsReadBack(e.name, plain, scope', rendered, inclusive);
  }

  lemma LostTagIsRefused(e: Node, scope: Scope, rendered: Scope, inclusive: set<string>)
    requires e.Element? && Distinct([e]) && Distinct(e.children) && rendered.Keys <= scope.Keys
    requires DecodedTag(e.name, Plain(e.attrs), Layer(scope, e.attrs)) && !TagReadable(e.name, Plain(e.attrs), Layer(scope, e.attrs))
    ensures ReadNode(CanonElement(e, scope, rendered, inclusive), rendered) == None
  {
    hide CanonElement, InnerRead, ReadNode, Decls, Layer, DecodedTag, AttrKept, ReadAttr;
    assert e in [e];
    var scope', plain := Layer(scope, e.attrs), Plain(e.attrs);
    LayerGrows(scope, e.attrs);
    ElementReads(e, scope, rendered, inclusive);
    LostNameIsRefused(e.name, plain, scope', rendered, inclusive);
    if e.name.space == "" || Declared(e.name.space, scope') {
      var a :| a in plain && !AttrKept(a, scope');
      var q := SortedAttrs(plain);
      assert a in q;
      var i :| 0 <= i < |q| && q[i] == a;
      assert NameAttrs(q, scope')[i] == NameAttr(a, scope');
    }
  }

  /** Names, attributes and text agree, in order; comments and declarations do not matter. */
  ghost predicate SameContent(a: seq<Node>, b: seq<Node>)
    decreases a
  {
    if a != [] && a[0].Comment? then SameContent(a[1..], b)
    else if a == [] then b == []
    else
      && b != []
      && SameContent(a[1..], b[1..])
      && (match a[0]
          case Element(name, attrs, children) =>
            b[0].Element? && b[0].name == name && Plain(b[0].attrs) == Plain(attrs) && SameContent(children, b[0].children)
          case Chars(text) => b[0] == Chars(text)
          case Comment(_) => true)
  }

  lemma PlainOfReadBack(ds: seq<Decl>, plain: set<Attr>)
    requires DistinctNames(plain) && forall a | a in plain :: !IsDecl(a)
    ensures Plain(DeclAttrs(ds) + SortedAttrs(plain)) == plain
  {
    var d, q := DeclAttrs(ds), SortedAttrs(plain);
    forall a ensures a in Plain(d + q) <==> a in plain {
      if a in d {
        var i :| 0 <= i < |d| && d[i] == a;
        assert IsDecl(DeclAttr(ds[i]));
      }
    }
  }

  lemma CharsRead(text: string, env: Scope)
    ensures ReadNode(OutChars(text), env) == Some(Chars(text))
  {
  }

  lemma NoDeclIsPlain(attrs: seq<Attr>)
    ensures forall a | a in Plain(attrs) :: !IsDecl(a)
  {
  }

  /** A document that has only readable names can be read back. */
  lemma {:induction false} ReadableIsRead(nodes: seq<Node>, scope: Scope, rendered: Scope, inclusive: set<string>)
    requires Distinct(nodes) && NamesReadable(nodes, scope) && rendered.Keys <= scope.Keys
    ensures Read(Canon(nodes, scope, rendered, inclusive), rendered).Some?
    decreases nodes
  {
    hide Layer, Plain, TagReadable, ReadNode, CanonElement, DistinctDecls, DistinctNames;
    if nodes != [] {
      var out, rest := Canon(nodes, scope, rendered, inclusive), Canon(nodes[1..], scope, rendered, inclusive);
      ReadableIsRead(nodes[1..], scope, rendered, inclusive);
      match nodes[0]
      case Element(_, _, _) =>
        var e := nodes[0];
        assert e in nodes && out[0] == CanonElement(e, scope, rendered, inclusive) && out[1..] == rest;
        ElementIsRead(e, scope, rendered, inclusive);
      case Chars(text) =>
        assert out[0] == OutChars(text) && out[1..] == rest;
        CharsRead(text, rendered);
      case Comment(_) =>
    }
  }

  lemma {:induction false} ElementIsRead(e: Node, scope: Scope, rendered: Scope, inclusive: set<string>)
    requires e.Element? && Distinct([e]) && NamesReadable([e], scope) && rendered.Keys <= scope.Keys
    ensures Distinct(e.children) && InnerRead(e, scope, rendered, inclusive).Some?
    ensures ReadNode(CanonElement(e, scope, rendered, inclusive), rendered)
      == Some(ReadBack(e, scope, rendered, inclusive, InnerRead(e, scope, rendered, inclusive).value))
    decreases e, 0
  {
    hide Layer, Plain, TagReadable, ReadNode, CanonElement, DistinctDecls, DistinctNames, ReadBack;
    assert e in [e];
    var scope' := Layer(scope, e.attrs);
    LayerGrows(scope, e.attrs);
    ReadableIsRead(e.children, scope', Below(e.name, Plain(e.attrs), scope', rendered, inclusive), inclusive);
    ElementReadsBack(e, scope, rendered, inclusive);
  }

  /** Of a document as the decoder yields it, the output can be read back if and only if every element is in no namespace
      or a declared one and every attribute can keep its name. */
  lemma {:induction false} ReadableIff(nodes: seq<Node>, scope: Scope, rendered: Scope, inclusive: set<string>)
    requires Distinct(nodes) && Decoded(nodes, scope) && rendered.Keys <= scope.Keys
    ensures Read(Canon(nodes, scope, rendered, inclusive), rendered).Some? <==> NamesReadable(nodes, scope)
    decreases nodes
  {
    hide Layer, Plain, TagReadable, ReadNode, CanonElement, DistinctDecls, DistinctNames, DecodedTag;
    if NamesReadable(nodes, scope) {
      ReadableIsRead(nodes, scope, rendered, inclusive);
    } else {
      var out, rest := Canon(nodes, scope, rendered, inclusive), Canon(nodes[1..], scope, rendered, inclusive);
      ReadableIff(nodes[1..], scope, rendered, inclusive);
      match nodes[0]
      case Element(_, _, _) =>
        var e := nodes[0];
        assert e in nodes && out[0] == CanonElement(e, scope, rendered, inclusive) && out[1..] == rest;
        if !NamesReadable([e], scope) { ElementRefused(e, scope, rendered, inclusive); }
      case Chars(_) => assert out[1..] == rest;
      case Comment(_) =>
    }
  }

  lemma {:induction false} ElementRefused(e: Node, scope: Scope, rendered: Scope, inclusive: set<string>)
    requires e.Element? && Distinct([e]) && Decoded([e], scope) && !NamesReadable([e], scope) && rendered.Keys <= scope.Keys
    ensures ReadNode(CanonElement(e, scope, rendered, inclusive), rendered) == None
    decreases e, 0
  {
    hide Layer, Plain, TagReadable, ReadNode, CanonElement, DistinctDecls, DistinctNames, DecodedTag;
    assert e in [e];
    var scope' := Layer(scope, e.attrs);
    LayerGrows(scope, e.attrs);
    if !TagReadable(e.name, Plain(e.attrs), scope') {
      LostTagIsRefused(e, scope, rendered, inclusive);
    } else {
      ReadableIff(e.children, scope', Below(e.name, Plain(e.attrs), scope', rendered, inclusive), inclusive);
      ElementReads(e, scope, rendered, inclusive);
    }
  }

  // ---- What is read ----

  lemma KeptIsReadable(nodes: seq<Node>, scope: Scope)
    requires NamesKept(nodes, scope)
    ensures NamesReadable(nodes, scope)
    decreases nodes
  {
    hide Layer, Plain, TagKept, TagReadable;
    forall n | n in nodes && n.Element?
      ensures TagReadable(n.name, Plain(n.attrs), Layer(scope, n.attrs)) && NamesReadable(n.children, Layer(scope, n.attrs))
    {
      KeptIff(n.name, Plain(n.attrs), Layer(scope, n.attrs));
      KeptIsReadable(n.children, Layer(scope, n.attrs));
    }
  }

  /** The reader finds the input exactly when every name is kept, given that all are readable. */
  lemma {:induction false} SameContentIff(nodes: seq<Node>, scope: Scope, rendered: Scope, inclusive: set<string>)
    requires Distinct(nodes) && NamesReadable(nodes, scope) && rendered.Keys <= scope.Keys
    ensures
      var read := Read(Canon(nodes, scope, rendered, inclusive), rendered);
      read.Some? && (SameContent(nodes, read.value) <==> NamesKept(nodes, scope))
    decreases nodes
  {
    hide Layer, Plain, TagKept, TagReadable, ReadNode, CanonElement, DistinctDecls, DistinctNames;
    ReadableIsRead(nodes, scope, rendered, inclusive);
    if nodes != [] {
      var out, rest := Canon(nodes, scope, rendered, inclusive), Canon(nodes[1..], scope, rendered, inclusive);
      SameContentIff(nodes[1..], scope, rendered, inclusive);
      assert nodes == [nodes[0]] + nodes[1..];
      match nodes[0]
      case Element(_, _, _) =>
        var e := nodes[0];
        assert e in nodes && out[0] == CanonElement(e, scope, rendered, inclusive) && out[1..] == rest;
        SameElementIff(e, scope, rendered, inclusive);
        var read := Read(out, rendered).value;
        assert read[0] == ReadNode(out[0], rendered).value && read[1..] == Read(rest, rendered).value;
      case Chars(text) =>
        assert out[0] == OutChars(text) && out[1..] == rest;
        CharsRead(text, rendered);
        var read := Read(out, rendered).value;
        assert read[0] == Chars(text) && read[1..] == Read(rest, rendered).value;
      case Comment(_) =>
    }
  }

  lemma {:induction false} SameElementIff(e: Node, scope: Scope, rendered: Scope, inclusive: set<string>)
    requires e.Element? && Distinct([e]) && NamesReadable([e], scope) && rendered.Keys <= scope.Keys
    ensures
      var read := ReadNode(CanonElement(e, scope, rendered, inclusive), rendered);
      && read.Some? && read.value.Element? && Plain(read.value.attrs) == Plain(e.attrs)
      && ((read.value.name == e.name && SameContent(e.children, read.value.children)) <==> NamesKept([e], scope))
    decreases e, 0
  {
    hide Layer, Plain, TagKept, TagReadable, ReadNode, CanonElement, DistinctDecls, DistinctNames, SameContent, Decls, DeclAttrs, SortedAttrs;
    assert e in [e];
    var scope', emit := Layer(scope, e.attrs), EmitOf(e, scope, rendered, inclusive);
    LayerGrows(scope, e.attrs);
    SameContentIff(e.children, scope', Below(e.name, Plain(e.attrs), scope', rendered, inclusive), inclusive);
    ElementReadsBack(e, scope, rendered, inclusive);
    KeptIff(e.name, Plain(e.attrs), scope');
    NoDeclIsPlain(e.attrs);
    PlainOfReadBack(Decls(emit, scope'), Plain(e.attrs));
  }

  /** Canonicalisation keeps the meaning of a document whose names can be written: each element and attribute name
      of the output, its prefix resolved by the nearest emitted declaration, is the name in the input. */
  lemma CanonKeepsMeaning(nodes: seq<Node>, scope: Scope, rendered: Scope, inclusive: set<string>)
    requires Distinct(nodes) && NamesKept(nodes, scope) && rendered.Keys <= scope.Keys
    ensures
      var read := Read(Canon(nodes, scope, rendered, inclusive), rendered);
      read.Some? && SameContent(nodes, read.value)
  {
    KeptIsReadable(nodes, scope);
    SameContentIff(nodes, scope, rendered, inclusive);
  }

  /** Exactly those: a document as the decoder yields it reads back with the same names, attributes and text if and only
      if every name can be written. */
  lemma ReadsBackIff(nodes: seq<Node>, scope: Scope, rendered: Scope, inclusive: set<string>)
    requires Distinct(nodes) && Decoded(nodes, scope) && rendered.Keys <= scope.Keys
    ensures
      var read := Read(Canon(nodes, scope, rendered, inclusive), rendered);
      (read.Some? && SameContent(nodes, read.value)) <==> NamesKept(nodes, scope)
  {
    hide Canon, Read, SameContent, NamesKept, NamesReadable, Decoded;
    ReadableIff(nodes, scope, rendered, inclusive);
    if NamesReadable(nodes, scope) { SameContentIff(nodes, scope, rendered, inclusive); }
    if NamesKept(nodes, scope) { KeptIsReadable(nodes, scope); }
  }

  // ---- Names that get lost ----

  /** `<r xml:lang="en"/>`: the URI is written where a prefix belongs. */
  lemma XmlLangIsLost()
    ensures
      var lang := Attr(Name(XmlUri, "lang"), "en");
      var doc := [Element(Name("", "r"), [lang], [])];
      && Distinct(doc) && Decoded(doc, map[]) && NameAttr(lang, map[]) == OutAttr(true, XmlUri, "lang", "en")
      && Read(Canon(doc, map[], map[], {}), map[]) == None
  {
    hide Canon, Read, PrefixFor;
    var lang := Attr(Name(XmlUri, "lang"), "en");
    var attrs := [lang];
    var doc := [Element(Name("", "r"), attrs, [])];
    assert !IsDecl(lang) && Plain(attrs) == {lang};
    assert attrs[..0] == [] && Layer(map[], attrs) == map[];
    assert Resolve("", map[]) == "" && Resolve("xml", map[]) == XmlUri;
    assert DecodedTag(Name("", "r"), Plain(attrs), map[]);
    assert !AttrKept(lang, map[]) && lang in Plain(attrs);
    assert NameAttr(lang, map[]).prefix == XmlUri by { UnboundIsNoPrefix(XmlUri, "xml", map[]); }
    assert doc[0] in doc && !NamesReadable(doc, map[]);
    ReadableIff(doc, map[], map[], {});
  }

  /** `<r xmlns="u" xmlns:p="u" p:a="v"/>`: an attribute in the default namespace is written without its prefix. */
  lemma DefaultAttributeIsLost()
    ensures
      var a := Attr(Name("u", "a"), "v");
      var scope: Scope := map["" := "u", "p" := "u"];
      DecodedTag(Name("u", "r"), {a}, scope) && NameAttr(a, scope) == OutAttr(true, "", "a", "v") && ReadAttr(NameAttr(a, scope), scope) == None
  {
    var scope: Scope := map["" := "u", "p" := "u"];
    assert Resolve("p", scope) == "u";
  }

  /** `<x xmlns="u"><p:e xmlns:p=""/></x>`: the decoder puts e in no namespace, the output puts it in u. */
  lemma TakenBackPrefixIsLost()
    ensures
      var scope: Scope := map["" := "u", "p" := ""];
      && DecodedTag(Name("", "e"), {}, scope) && NamePrefix(Name("", "e"), scope) == ""
      && ReadPrefix("", Below(Name("", "e"), {}, scope, map["" := "u"], {})) == Some("u")
  {
    var scope: Scope := map["" := "u", "p" := ""];
    assert Resolve("p", scope) == "";
    WrittenNameIsRead(Name("", "e"), {}, scope, map["" := "u"], {});
  }
}
