/** Exclusive XML canonicalisation as a tree transformation, driven by the namespaces declared in the
    source (the scope) and those already emitted (the rendered ones). */
module XmlCanon {
  import opened Sorting

  /** A name as the decoder resolves it: `space` is the namespace URI. */
  datatype Name = Name(space: string, local: string)
  datatype Attr = Attr(name: Name, value: string)

  datatype Node =
    | Element(name: Name, attrs: seq<Attr>, children: seq<Node>)
    | Chars(text: string)
    | Comment(text: string)

  /** Prefix to URI. */
  type Scope = map<string, string>

  /** Go's map read: a missing prefix reads as the empty string. */
  function Lookup(m: Scope, p: string): string {
    if p in m then m[p] else ""
  }

  // ---- Declarations ----

  predicate IsDecl(a: Attr) { a.name.space == "xmlns" || a.name.local == "xmlns" }

  function DeclPrefix(a: Attr): string {
    if a.name.space == "xmlns" then a.name.local else ""
  }

  /** The scope of an element: its parent's with its own declarations on top. */
  function Layer(scope: Scope, attrs: seq<Attr>): Scope {
    if attrs == [] then scope
    else
      var a := attrs[|attrs| - 1];
      var inner := Layer(scope, attrs[..|attrs| - 1]);
      if IsDecl(a) then inner[DeclPrefix(a) := a.value] else inner
  }

  /** The attributes that are not declarations. */
  function Plain(attrs: seq<Attr>): set<Attr> {
    set a | a in attrs && !IsDecl(a)
  }

  // ---- Prefixes ----

  ghost predicate Binds(scope: Scope, p: string, uri: string) {
    p != "" && p in scope && scope[p] == uri
  }

  /** The answers `prefixFor` can give: it walks a Go map, whose order is not fixed. */
  ghost predicate IsPrefixFor(uri: string, scope: Scope, p: string) {
    if uri == Lookup(scope, "") then p == ""
    else if exists q :: Binds(scope, q, uri) then Binds(scope, p, uri)
    else p == uri
  }

  /** One of those answers. */
  ghost function PrefixFor(uri: string, scope: Scope): (p: string)
    ensures IsPrefixFor(uri, scope, p)
  {
    if uri == Lookup(scope, "") then ""
    else if exists q :: Binds(scope, q, uri) then var q :| Binds(scope, q, uri); q
    else uri
  }

  /** At most one non-empty prefix is bound to the URI, so there is one answer. */
  ghost predicate SinglePrefix(uri: string, scope: Scope) {
    forall p, q | Binds(scope, p, uri) && Binds(scope, q, uri) :: p == q
  }

  // ---- Output ----

  datatype Decl = Decl(prefix: string, uri: string)
  /** `prefixed` tells `p:local`, even with an empty `p`, from plain `local`. */
  datatype OutAttr = OutAttr(prefixed: bool, prefix: string, local: string, value: string)

  datatype OutNode =
    | OutElement(prefix: string, local: string, decls: seq<Decl>, attrs: seq<OutAttr>, children: seq<OutNode>)
    | OutChars(text: string)

  predicate AttrLess(a: Attr, b: Attr) {
    if a.name.space != b.name.space then StringLess(a.name.space, b.name.space)
    else StringLess(a.name.local, b.name.local)
  }

  /** No two attributes have the same name. */
  predicate DistinctNames(s: set<Attr>) {
    forall a, b | a in s && b in s && a.name == b.name :: a == b
  }

  lemma AttrsAreOrdered(s: set<Attr>)
    requires DistinctNames(s)
    ensures Orders(AttrLess, s)
  {
    forall x, y, z | x in s && y in s && z in s
      ensures !AttrLess(x, x) && (AttrLess(x, y) && AttrLess(y, z) ==> AttrLess(x, z))
      ensures x == y || AttrLess(x, y) || AttrLess(y, x)
    {
      StringOrder(x.name.space, y.name.space, z.name.space);
      StringOrder(x.name.local, y.name.local, z.name.local);
      StringOrder(x.name.space, x.name.space, y.name.space);
    }
    forall x, y | x in s && y in s ensures !AttrLess(x, x) && (x == y || AttrLess(x, y) || AttrLess(y, x)) {
      StringOrder(x.name.space, y.name.space, x.name.space);
      StringOrder(x.name.local, y.name.local, x.name.local);
    }
  }

  ghost function NamePrefix(n: Name, scope: Scope): string {
    if n.space == "" then "" else PrefixFor(n.space, scope)
  }

  /** The prefixes an element, its attributes and the inclusive list call for. */
  ghost function Used(name: Name, plain: set<Attr>, scope: Scope, inclusive: set<string>): set<string> {
    {NamePrefix(name, scope)} + (set a | a in plain && a.name.space != "" :: PrefixFor(a.name.space, scope)) + inclusive
  }

  /** Those of them that must be declared here: in scope, and not already rendered to the same URI. */
  function ToEmit(used: set<string>, scope: Scope, rendered: Scope): (emit: set<string>)
    ensures emit <= scope.Keys
  {
    set p | p in used && p in scope && Lookup(rendered, p) != scope[p]
  }

  /** What is rendered below the element. */
  function Render(emit: set<string>, scope: Scope, rendered: Scope): Scope
    requires emit <= scope.Keys
  {
    rendered + (map p | p in emit :: scope[p])
  }

  ghost function Decls(emit: set<string>, scope: Scope): (ds: seq<Decl>)
    requires emit <= scope.Keys
    ensures |ds| == |emit|
  {
    StringsAreOrdered(emit);
    var ps := Sorted(StringLess, emit);
    seq(|ps|, i requires 0 <= i < |ps| => assert ps[i] in ps; Decl(ps[i], scope[ps[i]]))
  }

  ghost function NameAttr(a: Attr, scope: Scope): OutAttr {
    OutAttr(a.name.space != "", NamePrefix(a.name, scope), a.name.local, a.value)
  }

  ghost function NameAttrs(q: seq<Attr>, scope: Scope): (r: seq<OutAttr>)
    ensures |r| == |q| && forall i | 0 <= i < |q| :: r[i] == NameAttr(q[i], scope)
  {
    seq(|q|, i requires 0 <= i < |q| => NameAttr(q[i], scope))
  }

  ghost function SortedAttrs(plain: set<Attr>): (q: seq<Attr>)
    requires DistinctNames(plain)
    ensures |q| == |plain| && Ascending(AttrLess, q) && forall a :: a in q <==> a in plain
  {
    AttrsAreOrdered(plain);
    Sorted(AttrLess, plain)
  }

  /** Names are distinct throughout, declarations included. */
  predicate DistinctDecls(attrs: seq<Attr>) {
    forall i, j | 0 <= i < j < |attrs| && IsDecl(attrs[i]) && IsDecl(attrs[j]) :: DeclPrefix(attrs[i]) != DeclPrefix(attrs[j])
  }

  predicate Distinct(nodes: seq<Node>) {
    forall n | n in nodes :: n.Element? ==> DistinctDecls(n.attrs) && DistinctNames(Plain(n.attrs)) && Distinct(n.children)
  }

  /** The canonical form of the children of an element in whose context `scope` is declared and
      `rendered` is emitted. Comments are dropped. */
  ghost function Canon(nodes: seq<Node>, scope: Scope, rendered: Scope, inclusive: set<string>): seq<OutNode>
    requires Distinct(nodes)
  {
    if nodes == [] then []
    else
      var rest := Canon(nodes[1..], scope, rendered, inclusive);
      match nodes[0]
      case Element(_, _, _) => [CanonElement(nodes[0], scope, rendered, inclusive)] + rest
      case Chars(text) => [OutChars(text)] + rest
      case Comment(_) => rest
  }

  /** The output element of a tag, given its own scope and what is rendered above it. */
  ghost function Tag(name: Name, plain: set<Attr>, scope: Scope, rendered: Scope, inclusive: set<string>,
                     children: seq<OutNode>): OutNode
    requires DistinctNames(plain)
  {
    var emit := ToEmit(Used(name, plain, scope, inclusive), scope, rendered);
    OutElement(NamePrefix(name, scope), name.local, Decls(emit, scope), NameAttrs(SortedAttrs(plain), scope), children)
  }

  /** What is rendered inside the tag. */
  ghost function Below(name: Name, plain: set<Attr>, scope: Scope, rendered: Scope, inclusive: set<string>): Scope {
    Render(ToEmit(Used(name, plain, scope, inclusive), scope, rendered), scope, rendered)
  }

  ghost function CanonElement(e: Node, scope: Scope, rendered: Scope, inclusive: set<string>): OutNode
    requires e.Element? && Distinct([e])
  {
    assert Distinct(e.children) && DistinctNames(Plain(e.attrs)) by { assert e in [e]; }
    var scope' := Layer(scope, e.attrs);
    var plain := Plain(e.attrs);
    Tag(e.name, plain, scope', rendered, inclusive,
        Canon(e.children, scope', Below(e.name, plain, scope', rendered, inclusive), inclusive))
  }
}
