/** The laws a signature check relies on: canonicalising twice changes nothing, and neither attribute
    order nor further namespace declarations show in the canonical form. */
module XmlLaws {
  import opened Wrappers
  import opened Sorting
  import opened XmlCanon
  import opened XmlMeaning

  // ---- The order of attributes ----

  /** The same document with attributes listed in another order. */
  ghost predicate Permuted(a: seq<Node>, b: seq<Node>)
    decreases a
  {
    |a| == |b| && forall i | 0 <= i < |a| ::
      match a[i]
      case Element(name, attrs, children) =>
        b[i].Element? && b[i].name == name && (forall x :: x in b[i].attrs <==> x in attrs) && Permuted(children, b[i].children)
      case _ => b[i] == a[i]
  }

  lemma LayerIgnoresOrder(scope: Scope, a: seq<Attr>, b: seq<Attr>)
    requires DistinctDecls(a) && DistinctDecls(b) && forall x :: x in a <==> x in b
    ensures Layer(scope, a) == Layer(scope, b)
  {
    hide Layer;
    LayerMeaning(scope, a);
    LayerMeaning(scope, b);
    var l, r := Layer(scope, a), Layer(scope, b);
    forall p ensures (p in l <==> p in r) && Lookup(l, p) == Lookup(r, p) {
      if i :| 0 <= i < |a| && IsDecl(a[i]) && DeclPrefix(a[i]) == p {
        assert a[i] in b;
        var j :| 0 <= j < |b| && b[j] == a[i];
      } else {
        forall j | 0 <= j < |b| && IsDecl(b[j]) ensures DeclPrefix(b[j]) != p {
          assert b[j] in a;
          var i :| 0 <= i < |a| && a[i] == b[j];
        }
      }
    }
    SameScopes(l, r);
  }

  lemma {:induction false} AttributeOrderDoesNotShow(a: seq<Node>, b: seq<Node>, scope: Scope, rendered: Scope, inclusive: set<string>)
    requires Distinct(a) && Distinct(b) && Permuted(a, b)
    ensures Canon(a, scope, rendered, inclusive) == Canon(b, scope, rendered, inclusive)
    decreases a
  {
    if a != [] {
      AttributeOrderDoesNotShow(a[1..], b[1..], scope, rendered, inclusive);
      if a[0].Element? {
        var x, y := a[0], b[0];
        assert x in a && y in b;
        LayerIgnoresOrder(scope, x.attrs, y.attrs);
        assert Plain(x.attrs) == Plain(y.attrs);
        var scope', emit := Layer(scope, x.attrs), EmitOf(x, scope, rendered, inclusive);
        AttributeOrderDoesNotShow(x.children, y.children, scope', Render(emit, scope', rendered), inclusive);
      }
    }
  }

  // ---- One prefix per URI and one URI per prefix ----

  predicate Sub(a: Scope, b: Scope) {
    forall p | p in a :: p in b && a[p] == b[p]
  }

  predicate OneToOne(binding: Scope) {
    forall p, q | p in binding && q in binding && binding[p] == binding[q] :: p == q
  }

  predicate DeclaresWithin(attrs: seq<Attr>, binding: Scope) {
    forall a | a in attrs && IsDecl(a) :: DeclPrefix(a) in binding && binding[DeclPrefix(a)] == a.value
  }

  /** Every declaration of the document is one of `binding`. */
  predicate Within(nodes: seq<Node>, binding: Scope) {
    forall n | n in nodes :: n.Element? ==> DeclaresWithin(n.attrs, binding) && Within(n.children, binding)
  }

  lemma {:induction false} LayerStaysWithin(scope: Scope, attrs: seq<Attr>, binding: Scope)
    requires Sub(scope, binding) && DeclaresWithin(attrs, binding)
    ensures Sub(Layer(scope, attrs), binding) && Sub(scope, Layer(scope, attrs))
  {
    if attrs != [] {
      LayerStaysWithin(scope, attrs[..|attrs| - 1], binding);
      assert attrs[|attrs| - 1] in attrs;
    }
  }

  /** A URI bound in the smaller scope has the same prefix in the larger one. */
  lemma PrefixIsStable(uri: string, s: Scope, t: Scope, binding: Scope)
    requires uri != "" && Declared(uri, s) && Sub(s, t) && Sub(t, binding) && OneToOne(binding)
    ensures PrefixFor(uri, s) == PrefixFor(uri, t)
  {
    var p :| p in s && s[p] == uri;
    assert p == "" || (Binds(s, p, uri) && Binds(t, p, uri));
    assert IsPrefixFor(uri, s, p) && IsPrefixFor(uri, t, p);
  }

  /** In such a document `prefixFor` never has a choice. */
  lemma OneToOneIsUnambiguous(uri: string, scope: Scope, binding: Scope)
    requires Sub(scope, binding) && OneToOne(binding)
    ensures SinglePrefix(uri, scope)
  {
  }

  // ---- Idempotence ----

  /** Whatever URI a tag names is bound among the namespaces rendered below it. */
  lemma NamedIsRendered(name: Name, plain: set<Attr>, scope: Scope, rendered: Scope, inclusive: set<string>, uri: string)
    requires TagReadable(name, plain, scope) && rendered.Keys <= scope.Keys
    requires uri != "" && (uri == name.space || exists a :: a in plain && a.name.space == uri)
    ensures Declared(uri, Render(ToEmit(Used(name, plain, scope, inclusive), scope, rendered), scope, rendered))
  {
    var used := Used(name, plain, scope, inclusive);
    var p := PrefixFor(uri, scope);
    assert p in used;
    UsedIsRendered(used, scope, rendered, p);
    DeclaredIff(uri, scope);
    assert Lookup(scope, p) == uri;
  }

  /** The second pass, which has only the rendered namespaces and the names as written, finds the same prefixes. */
  lemma SecondPassNames(name: Name, plain: set<Attr>, scope: Scope, rendered: Scope, inclusive: set<string>, binding: Scope)
    requires TagReadable(name, plain, scope) && Sub(rendered, scope) && Sub(scope, binding) && OneToOne(binding)
    requires Sub(Below(name, plain, scope, rendered, inclusive), scope)
    ensures
      var rendered', name' := Below(name, plain, scope, rendered, inclusive), WrittenName(name, scope);
      && NamePrefix(name', rendered') == NamePrefix(name, scope)
      && (forall a | a in plain :: NameAttr(a, rendered') == NameAttr(a, scope))
      && Used(name', plain, rendered', inclusive) == Used(name, plain, scope, inclusive)
  {
    hide TagReadable, Render, ToEmit, Sub;
    var rendered' := Below(name, plain, scope, rendered, inclusive);
    SubKeys(rendered, scope);
    if name.space != "" {
      NamedIsRendered(name, plain, scope, rendered, inclusive, name.space);
      PrefixIsStable(name.space, rendered', scope, binding);
    } else {
      UsedIsRendered(Used(name, plain, scope, inclusive), scope, rendered, "");
    }
    forall a | a in plain && a.name.space != "" ensures PrefixFor(a.name.space, rendered') == PrefixFor(a.name.space, scope) {
      NamedIsRendered(name, plain, scope, rendered, inclusive, a.name.space);
      PrefixIsStable(a.name.space, rendered', scope, binding);
    }
  }

  lemma SubKeys(a: Scope, b: Scope)
    requires Sub(a, b)
    ensures a.Keys <= b.Keys
  {
  }

  /** It emits the same prefixes as well. */
  lemma SecondPassEmits(used: set<string>, scope: Scope, rendered: Scope)
    requires Sub(rendered, scope)
    ensures
      var emit := ToEmit(used, scope, rendered);
      var rendered' := Render(emit, scope, rendered);
      Sub(rendered', scope) && emit <= rendered'.Keys && ToEmit(used, rendered', rendered) == emit
      && Render(emit, rendered', rendered) == rendered'
  {
  }

  lemma DeclsDependOnValues(emit: set<string>, s: Scope, t: Scope)
    requires emit <= s.Keys && Sub(s, t)
    ensures emit <= t.Keys && Decls(emit, s) == Decls(emit, t)
  {
    StringsAreOrdered(emit);
    var ps := Sorted(StringLess, emit);
    forall i | 0 <= i < |ps| ensures Decls(emit, s)[i] == Decls(emit, t)[i] { assert ps[i] in ps; }
  }

  /** The second pass sees the rendered namespaces as its scope. */
  lemma SecondPassScope(e: Node, scope: Scope, rendered: Scope, inclusive: set<string>, inner: seq<Node>)
    requires e.Element? && Distinct([e]) && DistinctNames(Plain(e.attrs))
    ensures
      var e' := ReadBack(e, scope, rendered, inclusive, inner);
      && Layer(rendered, e'.attrs) == Render(EmitOf(e, scope, rendered, inclusive), Layer(scope, e.attrs), rendered)
      && Plain(e'.attrs) == Plain(e.attrs)
      && DistinctDecls(e'.attrs)
  {
    hide Layer, Decls, SortedAttrs, EmitOf, Read, Canon;
    var scope', emit := Layer(scope, e.attrs), EmitOf(e, scope, rendered, inclusive);
    var ds, q := Decls(emit, scope'), SortedAttrs(Plain(e.attrs));
    InsideIsRendered(emit, scope', rendered);
    LayerSkipsPlain(rendered, DeclAttrs(ds), q);
    PlainOfReadBack(ds, Plain(e.attrs));
    DeclsMeaning(emit, scope');
    PlainKeepsDistinct(DeclAttrs(ds), q);
  }

  lemma PlainKeepsDistinct(decls: seq<Attr>, plain: seq<Attr>)
    requires DistinctDecls(decls) && forall a | a in plain :: !IsDecl(a)
    ensures DistinctDecls(decls + plain)
  {
    var attrs := decls + plain;
    forall k | |decls| <= k < |attrs| ensures !IsDecl(attrs[k]) { assert attrs[k] in plain; }
  }

  /** So it writes the same tag and renders the same namespaces. */
  lemma SecondPassSameTag(name: Name, plain: set<Attr>, scope: Scope, rendered: Scope, inclusive: set<string>,
                          binding: Scope, children: seq<OutNode>)
    requires TagReadable(name, plain, scope) && Sub(rendered, scope) && Sub(scope, binding) && OneToOne(binding)
    requires DistinctNames(plain)
    ensures
      var rendered', name' := Below(name, plain, scope, rendered, inclusive), WrittenName(name, scope);
      && Below(name', plain, rendered', rendered, inclusive) == rendered'
      && Tag(name', plain, rendered', rendered, inclusive, children) == Tag(name, plain, scope, rendered, inclusive, children)
  {
    hide Decls, Used, NameAttr, NamePrefix, SortedAttrs, TagReadable, Render, ToEmit, Sub;
    var emit := ToEmit(Used(name, plain, scope, inclusive), scope, rendered);
    var rendered' := Below(name, plain, scope, rendered, inclusive);
    SecondPassEmits(Used(name, plain, scope, inclusive), scope, rendered);
    SecondPassNames(name, plain, scope, rendered, inclusive, binding);
    DeclsDependOnValues(emit, rendered', scope);
    SameAttrNames(plain, rendered', scope);
  }

  lemma SecondPassElement(e: Node, scope: Scope, rendered: Scope, inclusive: set<string>, binding: Scope, inner: seq<Node>)
    requires e.Element? && Distinct([e]) && TagReadable(e.name, Plain(e.attrs), Layer(scope, e.attrs))
    requires DistinctNames(Plain(e.attrs)) && Distinct(e.children)
    requires DeclaresWithin(e.attrs, binding) && Sub(rendered, scope) && Sub(scope, binding) && OneToOne(binding)
    requires
      var scope' := Layer(scope, e.attrs);
      var rendered' := Below(e.name, Plain(e.attrs), scope', rendered, inclusive);
      Distinct(inner) && Canon(inner, rendered', rendered', inclusive) == Canon(e.children, scope', rendered', inclusive)
    ensures
      var e' := ReadBack(e, scope, rendered, inclusive, inner);
      Distinct([e']) && CanonElement(e', rendered, rendered, inclusive) == CanonElement(e, scope, rendered, inclusive)
  {
    hide Layer, Used, Tag, Render, TagReadable, Canon, Decls, DeclAttrs, SortedAttrs, Plain, DistinctNames, DistinctDecls, Sub;
    assert e in [e];
    var e' := ReadBack(e, scope, rendered, inclusive, inner);
    var scope', plain := Layer(scope, e.attrs), Plain(e.attrs);
    var rendered' := Below(e.name, plain, scope', rendered, inclusive);
    LayerStaysWithin(scope, e.attrs, binding);
    SubTrans(rendered, scope, scope');
    SecondPassScope(e, scope, rendered, inclusive, inner);
    SecondPassSameTag(e.name, plain, scope', rendered, inclusive, binding, Canon(e.children, scope', rendered', inclusive));
    assert Distinct([e']);
  }

  lemma SubTrans(a: Scope, b: Scope, c: Scope)
    requires Sub(a, b) && Sub(b, c)
    ensures Sub(a, c)
  {
  }

  /** Canonicalising the canonical form again gives it back, when the document binds each prefix to one URI
      and each URI to one prefix and its names can be read. */
  lemma {:induction false} CanonIsIdempotent(nodes: seq<Node>, scope: Scope, rendered: Scope, inclusive: set<string>, binding: Scope)
    requires Distinct(nodes) && NamesReadable(nodes, scope) && Within(nodes, binding)
    requires Sub(rendered, scope) && Sub(scope, binding) && OneToOne(binding)
    ensures
      var again := Read(Canon(nodes, scope, rendered, inclusive), rendered);
      && again.Some? && Distinct(again.value)
      && Canon(again.value, rendered, rendered, inclusive) == Canon(nodes, scope, rendered, inclusive)
    decreases nodes
  {
    hide Layer, TagReadable, Used, Render, ToEmit, Sub, Plain, Tag, DistinctDecls, DistinctNames, DeclaresWithin, ReadNode, CanonElement;
    if nodes != [] {
      var out, rest := Canon(nodes, scope, rendered, inclusive), Canon(nodes[1..], scope, rendered, inclusive);
      CanonIsIdempotent(nodes[1..], scope, rendered, inclusive, binding);
      var restRead := Read(rest, rendered).value;
      match nodes[0]
      case Element(_, _, _) =>
        var e := nodes[0];
        assert e in nodes && out[0] == CanonElement(e, scope, rendered, inclusive) && out[1..] == rest;
        var e' := ElementIsIdempotent(e, scope, rendered, inclusive, binding);
        DistinctAppend([e'], restRead);
        assert ([e'] + restRead)[1..] == restRead;
      case Chars(text) =>
        assert out[0] == OutChars(text) && out[1..] == rest;
        CharsRead(text, rendered);
        DistinctAppend([Chars(text)], restRead);
        assert ([Chars(text)] + restRead)[1..] == restRead;
      case Comment(_) =>
    }
  }

  lemma {:induction false} ElementIsIdempotent(e: Node, scope: Scope, rendered: Scope, inclusive: set<string>, binding: Scope)
    returns (e': Node)
    requires e.Element? && Distinct([e]) && NamesReadable([e], scope) && Within([e], binding)
    requires Sub(rendered, scope) && Sub(scope, binding) && OneToOne(binding)
    ensures ReadNode(CanonElement(e, scope, rendered, inclusive), rendered) == Some(e') && e'.Element?
    ensures Distinct([e']) && CanonElement(e', rendered, rendered, inclusive) == CanonElement(e, scope, rendered, inclusive)
    decreases e, 0
  {
    hide Layer, TagReadable, Used, Render, ToEmit, Sub, Plain, Tag, DistinctDecls, DistinctNames, DeclaresWithin, ReadNode, CanonElement;
    assert e in [e];
    var scope', plain := Layer(scope, e.attrs), Plain(e.attrs);
    LayerStaysWithin(scope, e.attrs, binding);
    SubTrans(rendered, scope, scope');
    SecondPassEmits(Used(e.name, plain, scope', inclusive), scope', rendered);
    CanonIsIdempotent(e.children, scope', Below(e.name, plain, scope', rendered, inclusive), inclusive, binding);
    var inner := InnerRead(e, scope, rendered, inclusive).value;
    SecondPassElement(e, scope, rendered, inclusive, binding, inner);
    SubKeys(rendered, scope);
    ElementReadsBack(e, scope, rendered, inclusive);
    e' := ReadBack(e, scope, rendered, inclusive, inner);
  }

  /** Of such a document as the decoder yields it, the canonical form can be read and canonicalised again to itself if
      and only if every element is in no namespace or a declared one and every attribute can keep its name. */
  lemma IdempotentIff(nodes: seq<Node>, scope: Scope, rendered: Scope, inclusive: set<string>, binding: Scope)
    requires Distinct(nodes) && Decoded(nodes, scope) && Within(nodes, binding)
    requires Sub(rendered, scope) && Sub(scope, binding) && OneToOne(binding)
    ensures
      var again := Read(Canon(nodes, scope, rendered, inclusive), rendered);
      (again.Some? && Distinct(again.value) && Canon(again.value, rendered, rendered, inclusive) == Canon(nodes, scope, rendered, inclusive))
      <==> NamesReadable(nodes, scope)
  {
    hide Canon, Read, Sub;
    SubKeys(rendered, scope);
    ReadableIff(nodes, scope, rendered, inclusive);
    if NamesReadable(nodes, scope) { CanonIsIdempotent(nodes, scope, rendered, inclusive, binding); }
  }

  lemma DistinctAppend(a: seq<Node>, b: seq<Node>)
    requires Distinct(a) && Distinct(b)
    ensures Distinct(a + b)
  {
  }

  // ---- Further declarations ----

  predicate DeclaresPrefix(attrs: seq<Attr>, p: string) {
    exists a | a in attrs :: IsDecl(a) && DeclPrefix(a) == p
  }

  /** The same document with more namespace declarations, none of them for an inclusive prefix. */
  ghost predicate AddsDecls(a: seq<Node>, b: seq<Node>, inclusive: set<string>)
    decreases a
  {
    |a| == |b| && forall i | 0 <= i < |a| ::
      match a[i]
      case Element(name, attrs, children) =>
        && b[i].Element? && b[i].name == name && Plain(b[i].attrs) == Plain(attrs)
        && (forall p :: DeclaresPrefix(attrs, p) ==> DeclaresPrefix(b[i].attrs, p))
        && (forall p | p in inclusive :: DeclaresPrefix(b[i].attrs, p) ==> DeclaresPrefix(attrs, p))
        && AddsDecls(children, b[i].children, inclusive)
      case _ => b[i] == a[i]
  }

  lemma {:induction false} LayerKeys(scope: Scope, attrs: seq<Attr>, p: string)
    ensures p in Layer(scope, attrs) <==> p in scope || DeclaresPrefix(attrs, p)
  {
    if attrs != [] {
      var front, last := attrs[..|attrs| - 1], attrs[|attrs| - 1];
      LayerKeys(scope, front, p);
      assert attrs == front + [last];
      if DeclaresPrefix(attrs, p) && !(IsDecl(last) && DeclPrefix(last) == p) {
        var a :| a in attrs && IsDecl(a) && DeclPrefix(a) == p;
        assert a in front;
      }
    }
  }

  /** The larger scope still agrees with the smaller one wherever the tag looks. */
  ghost predicate Agrees(s: Scope, t: Scope, binding: Scope, inclusive: set<string>) {
    Sub(s, t) && Sub(t, binding) && forall p | p in inclusive :: p in t ==> p in s
  }

  lemma LayerKeepsAgreement(s: Scope, t: Scope, a: seq<Attr>, b: seq<Attr>, binding: Scope, inclusive: set<string>)
    requires Agrees(s, t, binding, inclusive) && DeclaresWithin(a, binding) && DeclaresWithin(b, binding)
    requires forall p :: DeclaresPrefix(a, p) ==> DeclaresPrefix(b, p)
    requires forall p | p in inclusive :: DeclaresPrefix(b, p) ==> DeclaresPrefix(a, p)
    ensures Agrees(Layer(s, a), Layer(t, b), binding, inclusive)
  {
    hide Layer, DeclaresPrefix;
    SubTrans(s, t, binding);
    LayerStaysWithin(s, a, binding);
    LayerStaysWithin(t, b, binding);
    forall p ensures p in Layer(s, a) ==> p in Layer(t, b) {
      LayerKeys(s, a, p);
      LayerKeys(t, b, p);
    }
    forall p | p in inclusive ensures p in Layer(t, b) ==> p in Layer(s, a) {
      LayerKeys(s, a, p);
      LayerKeys(t, b, p);
    }
  }

  /** The URI is declared, or it is one that no added declaration binds or takes for a prefix. */
  ghost predicate Foreseen(uri: string, s: Scope, binding: Scope) {
    uri == "" || Declared(uri, s) || (uri !in binding && forall p | p in binding :: binding[p] != uri)
  }

  ghost predicate TagForeseen(name: Name, plain: set<Attr>, s: Scope, binding: Scope) {
    Foreseen(name.space, s, binding) && forall a | a in plain :: Foreseen(a.name.space, s, binding)
  }

  ghost predicate AllForeseen(nodes: seq<Node>, s: Scope, binding: Scope) {
    forall n | n in nodes :: n.Element? ==>
      TagForeseen(n.name, Plain(n.attrs), Layer(s, n.attrs), binding) && AllForeseen(n.children, Layer(s, n.attrs), binding)
  }

  /** An element in no namespace stands where there is no default one. */
  ghost predicate NoneIsNone(nodes: seq<Node>, t: Scope) {
    forall n | n in nodes :: n.Element? ==>
      (n.name.space == "" ==> Lookup(Layer(t, n.attrs), "") == "") && NoneIsNone(n.children, Layer(t, n.attrs))
  }

  lemma ForeseenPrefix(uri: string, s: Scope, t: Scope, binding: Scope)
    requires uri != "" && Foreseen(uri, s, binding) && Sub(s, t) && Sub(t, binding) && OneToOne(binding)
    ensures PrefixFor(uri, s) == PrefixFor(uri, t)
    ensures PrefixFor(uri, s) in s || PrefixFor(uri, s) !in t
  {
    DeclaredIff(uri, s);
    if Declared(uri, s) {
      PrefixIsStable(uri, s, t, binding);
    }
  }

  /** The tag uses and emits the same prefixes in both scopes. */
  lemma AgreeingTag(name: Name, plain: set<Attr>, s: Scope, t: Scope, rendered: Scope, inclusive: set<string>, binding: Scope)
    requires Agrees(s, t, binding, inclusive) && OneToOne(binding) && Sub(rendered, s)
    requires TagForeseen(name, plain, s, binding) && (name.space == "" ==> Lookup(t, "") == "")
    ensures NamePrefix(name, s) == NamePrefix(name, t)
    ensures forall a | a in plain :: NameAttr(a, s) == NameAttr(a, t)
    ensures Used(name, plain, s, inclusive) == Used(name, plain, t, inclusive)
    ensures ToEmit(Used(name, plain, s, inclusive), s, rendered) == ToEmit(Used(name, plain, s, inclusive), t, rendered)
  {
    hide Foreseen, PrefixFor, OneToOne;
    if name.space != "" { ForeseenPrefix(name.space, s, t, binding); }
    forall a | a in plain && a.name.space != ""
      ensures PrefixFor(a.name.space, s) == PrefixFor(a.name.space, t)
      ensures PrefixFor(a.name.space, s) in s || PrefixFor(a.name.space, s) !in t
    {
      ForeseenPrefix(a.name.space, s, t, binding);
    }
    var used := Used(name, plain, s, inclusive);
    assert used == Used(name, plain, t, inclusive);
    assert forall p | p in used && p in t && Lookup(rendered, p) != t[p] :: p in s;
  }

  lemma AgreeingSameTag(name: Name, plain: set<Attr>, s: Scope, t: Scope, rendered: Scope, inclusive: set<string>,
                        binding: Scope, children: seq<OutNode>)
    requires Agrees(s, t, binding, inclusive) && OneToOne(binding) && Sub(rendered, s) && DistinctNames(plain)
    requires TagForeseen(name, plain, s, binding) && (name.space == "" ==> Lookup(t, "") == "")
    ensures Tag(name, plain, s, rendered, inclusive, children) == Tag(name, plain, t, rendered, inclusive, children)
    ensures Below(name, plain, s, rendered, inclusive) == Below(name, plain, t, rendered, inclusive)
    ensures Sub(Below(name, plain, s, rendered, inclusive), s)
  {
    hide Decls, Used, NameAttr, NamePrefix, SortedAttrs, TagForeseen, Render, ToEmit;
    AgreeingTag(name, plain, s, t, rendered, inclusive, binding);
    var emit := ToEmit(Used(name, plain, s, inclusive), s, rendered);
    EmitIsInScope(Used(name, plain, s, inclusive), s, rendered);
    DeclsDependOnValues(emit, s, t);
    RenderDependsOnValues(emit, s, t, rendered);
    SameAttrNames(plain, s, t);
  }

  lemma EmitIsInScope(used: set<string>, s: Scope, rendered: Scope)
    ensures ToEmit(used, s, rendered) <= s.Keys
  {
  }

  lemma RenderDependsOnValues(emit: set<string>, s: Scope, t: Scope, rendered: Scope)
    requires emit <= s.Keys && Sub(s, t) && Sub(rendered, s)
    ensures emit <= t.Keys && Render(emit, s, rendered) == Render(emit, t, rendered) && Sub(Render(emit, s, rendered), s)
  {
  }

  lemma SameAttrNames(plain: set<Attr>, s: Scope, t: Scope)
    requires DistinctNames(plain) && forall a | a in plain :: NameAttr(a, s) == NameAttr(a, t)
    ensures NameAttrs(SortedAttrs(plain), s) == NameAttrs(SortedAttrs(plain), t)
  {
    var q := SortedAttrs(plain);
    forall i | 0 <= i < |q| ensures NameAttr(q[i], s) == NameAttr(q[i], t) { assert q[i] in q; }
  }

  /** Declarations the content does not need leave the canonical form as it is. */
  lemma {:induction false} ExtraDeclarationsDoNotShow(a: seq<Node>, b: seq<Node>, s: Scope, t: Scope, rendered: Scope,
                                                      inclusive: set<string>, binding: Scope)
    requires Distinct(a) && Distinct(b) && AddsDecls(a, b, inclusive) && AllForeseen(a, s, binding) && NoneIsNone(b, t)
    requires Within(a, binding) && Within(b, binding) && OneToOne(binding)
    requires Agrees(s, t, binding, inclusive) && Sub(rendered, s)
    ensures Canon(a, s, rendered, inclusive) == Canon(b, t, rendered, inclusive)
    decreases a
  {
    hide Layer, TagForeseen, Sub, Plain, DistinctDecls, DistinctNames, DeclaresWithin, CanonElement, Agrees;
    if a != [] {
      ExtraDeclarationsDoNotShow(a[1..], b[1..], s, t, rendered, inclusive, binding);
      if a[0].Element? {
        ExtraDeclarationsElement(a[0], b[0], s, t, rendered, inclusive, binding);
      }
    }
  }

  lemma {:induction false} ExtraDeclarationsElement(x: Node, y: Node, s: Scope, t: Scope, rendered: Scope,
                                                    inclusive: set<string>, binding: Scope)
    requires x.Element? && Distinct([x]) && Distinct([y]) && AddsDecls([x], [y], inclusive)
    requires AllForeseen([x], s, binding) && NoneIsNone([y], t) && Within([x], binding) && Within([y], binding) && OneToOne(binding)
    requires Agrees(s, t, binding, inclusive) && Sub(rendered, s)
    ensures y.Element? && CanonElement(x, s, rendered, inclusive) == CanonElement(y, t, rendered, inclusive)
    decreases x, 0
  {
    assert x in [x] && y in [y] && [x][0] == x && [y][0] == y;
    var s', t', plain := Layer(s, x.attrs), Layer(t, y.attrs), Plain(x.attrs);
    SubTrans(s, t, binding);
    LayerStaysWithin(s, x.attrs, binding);
    SubTrans(rendered, s, s');
    LayerKeepsAgreement(s, t, x.attrs, y.attrs, binding, inclusive);
    AgreeingSameTag(x.name, plain, s', t', rendered, inclusive, binding, []);
    var rendered' := Below(x.name, plain, s', rendered, inclusive);
    ExtraDeclarationsDoNotShow(x.children, y.children, s', t', rendered', inclusive, binding);
    AgreeingSameTag(x.name, plain, s', t', rendered, inclusive, binding, Canon(x.children, s', rendered', inclusive));
  }
}
