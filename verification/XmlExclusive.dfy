/** What makes the canonical form exclusive, told from the output: the declarations each element carries and their
    order, the attributes and their order, and how names are written, given the namespaces of the source and those the
    output already gives its reader. */
module XmlExclusive {
  import opened Sorting
  import opened XmlCanon
  import opened XmlMeaning

  /** The namespaces of an element: its parent's with its own declarations on top. */
  function Namespaces(scope: Scope, attrs: seq<Attr>): Scope {
    if attrs == [] then scope
    else
      var outer, a := Namespaces(scope, attrs[..|attrs| - 1]), attrs[|attrs| - 1];
      if a.name.space == "xmlns" then outer[a.name.local := a.value]
      else if a.name.local == "xmlns" then outer["" := a.value]
      else outer
  }

  /** The namespaces of a reader of the output inside an element that carries the declarations `ds`. */
  function Told(env: Scope, ds: seq<Decl>): Scope {
    if ds == [] then env
    else
      var d := ds[|ds| - 1];
      Told(env, ds[..|ds| - 1])[d.prefix := d.uri]
  }

  /** The prefix already stands for the URI; one that is not declared stands for the empty one. */
  predicate Given(env: Scope, p: string, uri: string) {
    if p in env then env[p] == uri else uri == ""
  }

  /** The element is written with the prefix, one of its attributes is, or the inclusive list names it. */
  predicate Called(p: string, out: OutNode, inclusive: set<string>)
    requires out.OutElement?
  {
    p == out.prefix || p in inclusive || exists a :: a in out.attrs && a.prefixed && a.prefix == p
  }

  /** The element declares exactly the prefixes in scope that are called for and not yet given, in ascending order. */
  ghost predicate DeclaresExactly(out: OutNode, scope: Scope, env: Scope, inclusive: set<string>)
    requires out.OutElement?
  {
    && (forall p, uri :: Decl(p, uri) in out.decls
         <==> (p in scope && scope[p] == uri && !Given(env, p, uri) && Called(p, out, inclusive)))
    && (forall i, j | 0 <= i < j < |out.decls| :: Before(out.decls[i].prefix, out.decls[j].prefix))
  }

  /** How a namespace is written: the default one without a prefix, a declared one with a prefix bound to it, any other
      with itself as the prefix. */
  ghost predicate WrittenAs(uri: string, p: string, scope: Scope) {
    if uri == "" || Given(scope, "", uri) then p == ""
    else p != "" && (if Declared(uri, scope) then p in scope && scope[p] == uri else p == uri)
  }

  /** `q` lists the attributes that are not declarations by namespace and then local name, and `out` writes them so. */
  ghost predicate ListsAttrs(q: seq<Attr>, out: OutNode, attrs: seq<Attr>, scope: Scope)
    requires out.OutElement?
  {
    && (forall a :: a in q <==> (a in attrs && a.name.space != "xmlns" && a.name.local != "xmlns"))
    && (forall i, j | 0 <= i < j < |q| ::
         if q[i].name.space == q[j].name.space then Before(q[i].name.local, q[j].name.local)
         else Before(q[i].name.space, q[j].name.space))
    && |out.attrs| == |q|
    && (forall i | 0 <= i < |q| ::
         && out.attrs[i].prefixed == (q[i].name.space != "")
         && WrittenAs(q[i].name.space, out.attrs[i].prefix, scope)
         && out.attrs[i].local == q[i].name.local && out.attrs[i].value == q[i].value)
  }

  ghost predicate IsTag(name: Name, attrs: seq<Attr>, out: OutNode, scope: Scope, env: Scope, inclusive: set<string>) {
    && out.OutElement? && out.local == name.local && WrittenAs(name.space, out.prefix, scope)
    && DeclaresExactly(out, scope, env, inclusive)
    && exists q :: ListsAttrs(q, out, attrs, scope)
  }

  /** `outs` is an exclusive canonical form of `nodes`, whose namespaces are `scope`, for a reader who knows `env`. */
  ghost predicate IsExclusive(nodes: seq<Node>, outs: seq<OutNode>, scope: Scope, env: Scope, inclusive: set<string>)
    decreases nodes
  {
    if nodes == [] then outs == []
    else if nodes[0].Comment? then IsExclusive(nodes[1..], outs, scope, env, inclusive)
    else
      && outs != [] && IsExclusive(nodes[1..], outs[1..], scope, env, inclusive)
      && match nodes[0]
         case Element(name, attrs, children) =>
           && IsTag(name, attrs, outs[0], Namespaces(scope, attrs), env, inclusive)
           && IsExclusive(children, outs[0].children, Namespaces(scope, attrs), Told(env, outs[0].decls), inclusive)
         case Chars(text) => outs[0] == OutChars(text)
         case Comment(_) => true
  }

  lemma {:induction false} LayerIsNamespaces(scope: Scope, attrs: seq<Attr>)
    ensures Layer(scope, attrs) == Namespaces(scope, attrs)
  {
    if attrs != [] { LayerIsNamespaces(scope, attrs[..|attrs| - 1]); }
  }

  lemma {:induction false} InsideIsTold(env: Scope, ds: seq<Decl>)
    ensures Inside(env, ds) == Told(env, ds)
  {
    if ds != [] {
      InsideIsTold(env, ds[..|ds| - 1]);
      assert DeclAttrs(ds)[..|ds| - 1] == DeclAttrs(ds[..|ds| - 1]);
    }
  }

  lemma PrefixIsWritten(name: Name, scope: Scope)
    ensures WrittenAs(name.space, NamePrefix(name, scope), scope)
  {
    if name.space != "" { DeclaredIff(name.space, scope); }
  }

  lemma AttrsAscend(q: seq<Attr>, i: nat, j: nat)
    requires Ascending(AttrLess, q) && i < j < |q|
    ensures if q[i].name.space == q[j].name.space then Before(q[i].name.local, q[j].name.local) else Before(q[i].name.space, q[j].name.space)
  {
    hide StringLess, Before;
    assert AttrLess(q[i], q[j]);
    LessIsBefore(q[i].name.local, q[j].name.local);
    LessIsBefore(q[i].name.space, q[j].name.space);
  }

  lemma AttrsAreListed(q: seq<Attr>, out: OutNode, attrs: seq<Attr>, scope: Scope)
    requires Ascending(AttrLess, q) && (forall a :: a in q <==> a in Plain(attrs))
    requires out.OutElement? && out.attrs == NameAttrs(q, scope)
    ensures ListsAttrs(q, out, attrs, scope)
  {
    hide WrittenAs, NamePrefix, StringLess, Before, Ascending;
    forall i, j | 0 <= i < j < |q|
      ensures if q[i].name.space == q[j].name.space then Before(q[i].name.local, q[j].name.local) else Before(q[i].name.space, q[j].name.space)
    {
      AttrsAscend(q, i, j);
    }
    forall i | 0 <= i < |q| ensures WrittenAs(q[i].name.space, out.attrs[i].prefix, scope) {
      PrefixIsWritten(q[i].name, scope);
    }
  }

  lemma UsedIsCalled(name: Name, plain: set<Attr>, q: seq<Attr>, scope: Scope, inclusive: set<string>, out: OutNode, p: string)
    requires forall a :: a in q <==> a in plain
    requires out.OutElement? && out.attrs == NameAttrs(q, scope) && out.prefix == NamePrefix(name, scope)
    ensures p in Used(name, plain, scope, inclusive) <==> Called(p, out, inclusive)
  {
    hide PrefixFor;
    assert (exists a :: a in plain && a.name.space != "" && PrefixFor(a.name.space, scope) == p)
      <==> exists b :: b in out.attrs && b.prefixed && b.prefix == p by { AttrsCall(q, scope, p); }
  }

  lemma AttrsCall(q: seq<Attr>, scope: Scope, p: string)
    ensures (exists a :: a in q && a.name.space != "" && PrefixFor(a.name.space, scope) == p)
      <==> exists b :: b in NameAttrs(q, scope) && b.prefixed && b.prefix == p
  {
    hide PrefixFor;
    var r := NameAttrs(q, scope);
    if a :| a in q && a.name.space != "" && PrefixFor(a.name.space, scope) == p {
      var i :| 0 <= i < |q| && q[i] == a;
      assert r[i] in r && r[i] == NameAttr(a, scope);
    }
    if b :| b in r && b.prefixed && b.prefix == p {
      var i :| 0 <= i < |q| && r[i] == b;
      assert q[i] in q;
    }
  }

  lemma DeclIsExact(used: set<string>, scope: Scope, rendered: Scope, p: string, uri: string)
    ensures Decl(p, uri) in Decls(ToEmit(used, scope, rendered), scope)
      <==> (p in scope && scope[p] == uri && !Given(rendered, p, uri) && p in used)
  {
    hide Decls;
    var emit := ToEmit(used, scope, rendered);
    var ds := Decls(emit, scope);
    DeclsMeaning(emit, scope);
    if Decl(p, uri) in ds {
      var i :| 0 <= i < |ds| && ds[i] == Decl(p, uri);
    }
  }

  lemma DeclsAscend(emit: set<string>, scope: Scope, i: nat, j: nat)
    requires emit <= scope.Keys && i < j < |emit|
    ensures Before(Decls(emit, scope)[i].prefix, Decls(emit, scope)[j].prefix)
  {
    hide Before, Decls, StringLess, Orders;
    DeclAt(emit, scope, i);
    DeclAt(emit, scope, j);
    LessIsBefore(Decls(emit, scope)[i].prefix, Decls(emit, scope)[j].prefix);
  }

  lemma TagDeclares(name: Name, plain: set<Attr>, scope: Scope, rendered: Scope, inclusive: set<string>, children: seq<OutNode>)
    requires DistinctNames(plain)
    ensures DeclaresExactly(Tag(name, plain, scope, rendered, inclusive, children), scope, rendered, inclusive)
  {
    hide Given, NamePrefix, DistinctNames, Before, Decls, Called, Used, StringLess, NameAttrs, SortedAttrs, AttrLess, ToEmit;
    var q, out := SortedAttrs(plain), Tag(name, plain, scope, rendered, inclusive, children);
    var used := Used(name, plain, scope, inclusive);
    forall p, uri
      ensures Decl(p, uri) in out.decls <==> (p in scope && scope[p] == uri && !Given(rendered, p, uri) && Called(p, out, inclusive))
    {
      DeclIsExact(used, scope, rendered, p, uri);
      UsedIsCalled(name, plain, q, scope, inclusive, out, p);
    }
    forall i, j | 0 <= i < j < |out.decls| ensures Before(out.decls[i].prefix, out.decls[j].prefix) {
      DeclsAscend(ToEmit(used, scope, rendered), scope, i, j);
    }
  }

  lemma TagIsExact(name: Name, attrs: seq<Attr>, scope: Scope, rendered: Scope, inclusive: set<string>, children: seq<OutNode>)
    requires DistinctNames(Plain(attrs))
    ensures IsTag(name, attrs, Tag(name, Plain(attrs), scope, rendered, inclusive, children), scope, rendered, inclusive)
  {
    hide DeclaresExactly, WrittenAs, NamePrefix, DistinctNames, ListsAttrs, Decls, Used, StringLess, NameAttrs, SortedAttrs, AttrLess, Plain;
    var out := Tag(name, Plain(attrs), scope, rendered, inclusive, children);
    PrefixIsWritten(name, scope);
    AttrsAreListed(SortedAttrs(Plain(attrs)), out, attrs, scope);
    TagDeclares(name, Plain(attrs), scope, rendered, inclusive, children);
  }

  /** Every form the writer can give a document is exclusive in this sense. */
  lemma {:induction false} CanonIsExclusive(nodes: seq<Node>, scope: Scope, rendered: Scope, inclusive: set<string>)
    requires Distinct(nodes)
    ensures IsExclusive(nodes, Canon(nodes, scope, rendered, inclusive), scope, rendered, inclusive)
    decreases nodes
  {
    hide IsTag, Namespaces, Layer, Told, Inside, DistinctNames, DistinctDecls, Plain;
    if nodes != [] {
      var out, rest := Canon(nodes, scope, rendered, inclusive), Canon(nodes[1..], scope, rendered, inclusive);
      CanonIsExclusive(nodes[1..], scope, rendered, inclusive);
      match nodes[0]
      case Element(name, attrs, children) =>
        var e := nodes[0];
        assert e in nodes && e in [e];
        assert out[0] == CanonElement(e, scope, rendered, inclusive) && out[1..] == rest;
        var scope' := Layer(scope, attrs);
        var below := Below(name, Plain(attrs), scope', rendered, inclusive);
        LayerIsNamespaces(scope, attrs);
        TagIsExact(name, attrs, scope', rendered, inclusive, Canon(children, scope', below, inclusive));
        InsideIsRendered(EmitOf(e, scope, rendered, inclusive), scope', rendered);
        InsideIsTold(rendered, out[0].decls);
        CanonIsExclusive(children, scope', below, inclusive);
      case Chars(_) => assert out[1..] == rest;
      case Comment(_) =>
    }
  }

  /** No element declares what is given already, or a prefix nobody there calls for. */
  ghost predicate Sparse(outs: seq<OutNode>, env: Scope, inclusive: set<string>) {
    forall o | o in outs && o.OutElement? ::
      && (forall d | d in o.decls :: !Given(env, d.prefix, d.uri) && Called(d.prefix, o, inclusive))
      && Sparse(o.children, Told(env, o.decls), inclusive)
  }

  lemma {:induction false} ExclusiveIsSparse(nodes: seq<Node>, outs: seq<OutNode>, scope: Scope, env: Scope, inclusive: set<string>)
    requires IsExclusive(nodes, outs, scope, env, inclusive)
    ensures Sparse(outs, env, inclusive)
    decreases nodes
  {
    hide Namespaces, Told, Given, Called;
    if nodes != [] {
      if nodes[0].Comment? {
        ExclusiveIsSparse(nodes[1..], outs, scope, env, inclusive);
      } else {
        var o := outs[0];
        ExclusiveIsSparse(nodes[1..], outs[1..], scope, env, inclusive);
        if nodes[0].Element? {
          ExclusiveIsSparse(nodes[0].children, o.children, Namespaces(scope, nodes[0].attrs), Told(env, o.decls), inclusive);
          assert forall d | d in o.decls :: d == Decl(d.prefix, d.uri);
        }
        assert outs == [o] + outs[1..];
      }
    }
  }

  /** No declaration of the output repeats what its reader has been given on the way down, and each is for the element, one
      of its attributes or the inclusive list. */
  lemma NothingIsDeclaredTwice(nodes: seq<Node>, scope: Scope, rendered: Scope, inclusive: set<string>)
    requires Distinct(nodes)
    ensures Sparse(Canon(nodes, scope, rendered, inclusive), rendered, inclusive)
  {
    CanonIsExclusive(nodes, scope, rendered, inclusive);
    ExclusiveIsSparse(nodes, Canon(nodes, scope, rendered, inclusive), scope, rendered, inclusive);
  }

  lemma LoneTag(name: Name, attrs: seq<Attr>, out: OutNode, scope: Scope, env: Scope, p: string)
    requires IsTag(name, attrs, out, scope, env, {}) && p != "" && scope == map[p := name.space] && name.space != ""
    requires forall a | a in attrs :: a.name.space == "xmlns"
    ensures out.OutElement? && out.prefix == p && out.local == name.local && out.attrs == []
    ensures out.decls == if Given(env, p, name.space) then [] else [Decl(p, name.space)]
  {
    hide Before;
    var q :| ListsAttrs(q, out, attrs, scope);
    EmptyOrNot(q);
    assert p in scope && scope[p] == name.space;
    assert Declared(name.space, scope);
    assert out.prefix == p;
    if out.decls != [] {
      assert out.decls[0] == Decl(out.decls[0].prefix, out.decls[0].uri) && out.decls[0] in out.decls;
    }
    if |out.decls| > 1 {
      assert out.decls[1] == Decl(out.decls[1].prefix, out.decls[1].uri) && out.decls[1] in out.decls;
      NotBeforeItself(p);
    }
    assert Decl(p, name.space) in out.decls <==> !Given(env, p, name.space);
  }

  lemma EmptyOrNot(q: seq<Attr>)
    ensures q == [] || exists a :: a in q
  {
    if q != [] { assert q[0] in q; }
  }

  lemma NotBeforeItself(s: string)
    ensures !Before(s, s)
  {
  }

  /** A prefix bound on an element is not declared again on its child. */
  lemma ChildInherits()
    ensures
      var child := Element(Name("u", "b"), [], []);
      var doc := [Element(Name("u", "a"), [Attr(Name("xmlns", "p"), "u")], [child])];
      Distinct(doc) && Canon(doc, map[], map[], {})
        == [OutElement("p", "a", [Decl("p", "u")], [], [OutElement("p", "b", [], [], [])])]
  {
    hide IsTag, Canon, Namespaces, Told;
    var decl, child := Attr(Name("xmlns", "p"), "u"), Element(Name("u", "b"), [], []);
    var doc := [Element(Name("u", "a"), [decl], [child])];
    assert Distinct([child]);
    assert Distinct(doc);
    var outs := Canon(doc, map[], map[], {});
    CanonIsExclusive(doc, map[], map[], {});
    var scope := map["p" := "u"];
    OneDecl();
    LoneTag(Name("u", "a"), [decl], outs[0], scope, map[], "p");
    assert IsExclusive([], outs[1..], map[], map[], {});
    var inner := outs[0].children;
    assert IsExclusive([child], inner, scope, scope, {});
    assert IsExclusive([], inner[1..], scope, scope, {});
    LoneTag(Name("u", "b"), [], inner[0], scope, scope, "p");
    assert IsExclusive([], inner[0].children, scope, scope, {});
    assert inner == [inner[0]] && outs == [outs[0]];
  }

  lemma OneDecl()
    ensures Namespaces(map[], [Attr(Name("xmlns", "p"), "u")]) == map["p" := "u"] == Told(map[], [Decl("p", "u")])
    ensures Namespaces(map["p" := "u"], []) == map["p" := "u"] == Told(map["p" := "u"], [])
  {
    assert Namespaces(map[], []) == map[] && Told(map[], []) == map[];
  }
}
