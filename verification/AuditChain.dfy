/** The audit trail: every saved entry is hashed together with the hash of the tenant's latest entry. */
module AuditChain {
  import opened Wrappers
  import opened Text
  import opened Sorting

  datatype Entry = Entry(id: string, tenant: string, time: int, actor: string, action: string, entity: string,
                         target: string, ip: string, agent: string, outcome: string, severity: string,
                         session: string, request: string, before: string, after: string)

  datatype Row = Row(entry: Entry, prevHash: string, hash: string)

  /** The hash and the text form of a time stamp. */
  datatype Coding = Coding(hash: string -> string, stamp: int -> string)

  const Sep: char := '\U{1F}'

  /** Facts about a hexadecimal digest and a fixed-width time stamp. Nothing is supposed about collisions. */
  ghost predicate Plausible(k: Coding) {
    && (forall s :: k.hash(s) != "" && Sep !in k.hash(s))
    && (forall t :: Sep !in k.stamp(t))
    && (forall t, u :: k.stamp(t) == k.stamp(u) ==> t == u)
  }

  function Parts(k: Coding, e: Entry, prevHash: string): seq<string> {
    [prevHash, e.id, e.tenant, k.stamp(e.time), e.actor, e.action, e.entity, e.target, e.ip, e.agent, e.outcome,
     e.severity, e.session, e.request, e.before, e.after]
  }

  /** What is hashed: the parts with a separator between them. */
  function Payload(k: Coding, e: Entry, prevHash: string): string {
    Join(Parts(k, e, prevHash), Sep)
  }

  /** Writes each of the first fourteen parts with a separator behind it, then the two states. */
  method HashedText(k: Coding, e: Entry, prevHash: string) returns (h: string)
    ensures h == Payload(k, e, prevHash)
  {
    hide Join;
    var parts := Parts(k, e, prevHash);
    h := "";
    assert parts[0..] == parts;
    for i := 0 to 14
      invariant h + Join(parts[i..], Sep) == Join(parts, Sep)
    {
      JoinFirst(h, parts[i..]);
      assert parts[i..][1..] == parts[i + 1..];
      h := h + parts[i];
      h := h + [Sep];
    }
    JoinFirst(h, parts[14..]);
    assert parts[14..] == [e.before, e.after];
    h := h + e.before;
    h := h + [Sep];
    JoinLast(e.after);
    assert parts[14..][1..] == [e.after];
    h := h + e.after;
  }

  lemma JoinFirst(h: string, parts: seq<string>)
    requires |parts| > 1
    ensures h + Join(parts, Sep) == h + parts[0] + [Sep] + Join(parts[1..], Sep)
  {
    var j := Join(parts[1..], Sep);
    assert h + (parts[0] + [Sep] + j) == h + parts[0] + [Sep] + j;
  }

  lemma JoinLast(part: string)
    ensures Join([part], Sep) == part
  {
  }

  // ---- Different entries have different payloads ----

  function Seps(s: string): nat {
    if s == "" then 0 else (if s[0] == Sep then 1 else 0) + Seps(s[1..])
  }

  function AllSeps(parts: seq<string>): nat {
    if parts == [] then 0 else Seps(parts[0]) + AllSeps(parts[1..])
  }

  lemma {:induction false} SepsAppend(a: string, b: string)
    ensures Seps(a + b) == Seps(a) + Seps(b)
  {
    if a == "" {
      assert a + b == b;
    } else {
      assert (a + b)[1..] == a[1..] + b;
      SepsAppend(a[1..], b);
    }
  }

  lemma {:induction false} NoSepsIff(s: string)
    ensures Seps(s) == 0 <==> Sep !in s
  {
    if s != "" {
      NoSepsIff(s[1..]);
      assert s == [s[0]] + s[1..];
    }
  }

  lemma {:induction false} JoinSeps(parts: seq<string>)
    requires parts != []
    ensures Seps(Join(parts, Sep)) == AllSeps(parts) + |parts| - 1
  {
    if |parts| > 1 {
      JoinSeps(parts[1..]);
      var rest := Join(parts[1..], Sep);
      SepsAppend(parts[0] + [Sep], rest);
      SepsAppend(parts[0], [Sep]);
    }
  }

  lemma {:induction false} AllSepsIff(parts: seq<string>)
    ensures AllSeps(parts) == 0 <==> forall p | p in parts :: Sep !in p
  {
    if parts != [] {
      NoSepsIff(parts[0]);
      AllSepsIff(parts[1..]);
      assert parts == [parts[0]] + parts[1..];
    }
  }

  /** Parts free of the separator cannot be mistaken for any others, separators or not. */
  lemma JoinTellsApart(p: seq<string>, q: seq<string>)
    requires |p| == |q| > 0 && Join(p, Sep) == Join(q, Sep) && forall s | s in p :: Sep !in s
    ensures p == q
  {
    JoinSeps(p);
    JoinSeps(q);
    AllSepsIff(p);
    AllSepsIff(q);
    SplitJoin(p, Sep);
    SplitJoin(q, Sep);
  }

  function Fields(e: Entry): seq<string> {
    [e.id, e.tenant, e.actor, e.action, e.entity, e.target, e.ip, e.agent, e.outcome, e.severity, e.session, e.request, e.before, e.after]
  }

  /** No field holds the separator. */
  predicate Clean(e: Entry) { forall s | s in Fields(e) :: Sep !in s }

  lemma PayloadTellsApart(k: Coding, e: Entry, p: string, f: Entry, q: string)
    requires Plausible(k) && Clean(e) && Sep !in p && Payload(k, e, p) == Payload(k, f, q)
    ensures e == f && p == q
  {
    hide Join;
    var a, b := Parts(k, e, p), Parts(k, f, q);
    assert forall s | s in a :: Sep !in s;
    JoinTellsApart(a, b);
    assert a[0] == b[0] && a[1] == b[1] && a[2] == b[2] && a[3] == b[3] && a[4] == b[4] && a[5] == b[5] && a[6] == b[6] && a[7] == b[7];
    assert a[8] == b[8] && a[9] == b[9] && a[10] == b[10] && a[11] == b[11] && a[12] == b[12] && a[13] == b[13] && a[14] == b[14] && a[15] == b[15];
  }

  /** Moving the border between two neighbouring parts does not show in the joined text. */
  lemma MoveBorder(q: seq<string>, i: nat, c: string, d: string)
    requires i + 1 < |q| && q[i] + [Sep] + q[i + 1] == c + [Sep] + d
    ensures Join(q[i := c][i + 1 := d], Sep) == Join(q, Sep)
  {
    hide Join;
    var q' := q[i := c][i + 1 := d];
    SameFromHere(q[i], q[i + 1], c, d, q[i + 2..]);
    JoinPrefix(q[..i], [q[i], q[i + 1]] + q[i + 2..], [c, d] + q[i + 2..]);
    assert q == q[..i] + ([q[i], q[i + 1]] + q[i + 2..]);
    assert q' == q[..i] + ([c, d] + q[i + 2..]);
  }

  lemma SameFromHere(a: string, b: string, c: string, d: string, tail: seq<string>)
    requires a + [Sep] + b == c + [Sep] + d
    ensures Join([a, b] + tail, Sep) == Join([c, d] + tail, Sep)
  {
    JoinTwo(a, b, tail);
    JoinTwo(c, d, tail);
  }

  lemma JoinTwo(a: string, b: string, tail: seq<string>)
    ensures Join([a, b] + tail, Sep) == (a + [Sep] + b) + if tail == [] then "" else [Sep] + Join(tail, Sep)
  {
    assert ([a, b] + tail)[1..] == [b] + tail && ([b] + tail)[1..] == tail;
    if tail != [] {
      var j := Join(tail, Sep);
      assert a + [Sep] + (b + [Sep] + j) == (a + [Sep] + b) + ([Sep] + j);
    }
  }

  lemma {:induction false} JoinPrefix(front: seq<string>, p: seq<string>, q: seq<string>)
    requires p != [] && q != [] && Join(p, Sep) == Join(q, Sep)
    ensures Join(front + p, Sep) == Join(front + q, Sep)
  {
    if front == [] {
      assert front + p == p && front + q == q;
    } else {
      assert (front + p)[1..] == front[1..] + p && (front + q)[1..] == front[1..] + q;
      JoinPrefix(front[1..], p, q);
    }
  }

  /** The entry whose parts, apart from the previous hash and the time, are these. */
  function EntryOf(q: seq<string>, time: int): Entry
    requires |q| == 16
  {
    Entry(q[1], q[2], time, q[4], q[5], q[6], q[7], q[8], q[9], q[10], q[11], q[12], q[13], q[14], q[15])
  }

  lemma PartsOfEntryOf(k: Coding, q: seq<string>, time: int)
    requires |q| == 16 && q[3] == k.stamp(time)
    ensures Parts(k, EntryOf(q, time), q[0]) == q
  {
  }

  /** A part that holds the separator can give a piece of itself to its neighbour. */
  lemma AnotherSplit(q: seq<string>, j: nat) returns (q': seq<string>)
    requires |q| == 16 && j < 16 && j != 3 && Sep in q[j]
    ensures |q'| == 16 && q' != q && q'[3] == q[3] && Join(q', Sep) == Join(q, Sep)
  {
    hide Join;
    var n := IndexOf(q[j], Sep);
    var x, y := q[j][..n], q[j][n + 1..];
    assert q[j] == x + [Sep] + y;
    if j == 2 || j == 15 {
      var c := q[j - 1] + [Sep] + x;
      assert q[j - 1] + [Sep] + q[j] == c + [Sep] + y;
      MoveBorder(q, j - 1, c, y);
      q' := q[j - 1 := c][j := y];
      assert |q'[j]| < |q[j]|;
    } else {
      var d := y + [Sep] + q[j + 1];
      assert q[j] + [Sep] + q[j + 1] == x + [Sep] + d;
      MoveBorder(q, j, x, d);
      q' := q[j := x][j + 1 := d];
      assert |q'[j]| < |q[j]|;
    }
  }

  ghost predicate Unmistakable(k: Coding, e: Entry, p: string) {
    forall f, q | Payload(k, f, q) == Payload(k, e, p) :: f == e && q == p
  }

  /** No other entry or previous hash has the same payload exactly when neither a field nor the previous hash holds
      the separator. */
  lemma PayloadUnmistakableIff(k: Coding, e: Entry, p: string)
    requires Plausible(k)
    ensures Unmistakable(k, e, p) <==> Clean(e) && Sep !in p
  {
    hide Join, Clean;
    if Clean(e) && Sep !in p {
      forall f, q | Payload(k, f, q) == Payload(k, e, p) ensures f == e && q == p { PayloadTellsApart(k, e, p, f, q); }
    } else {
      var parts := Parts(k, e, p);
      var j := SeparatorSomewhere(k, e, p);
      var q := AnotherSplit(parts, j);
      PartsOfEntryOf(k, q, e.time);
      assert Payload(k, EntryOf(q, e.time), q[0]) == Payload(k, e, p);
    }
  }

  lemma SeparatorSomewhere(k: Coding, e: Entry, p: string) returns (j: nat)
    requires Plausible(k) && (!Clean(e) || Sep in p)
    ensures j < 16 && j != 3 && Sep in Parts(k, e, p)[j]
  {
    hide Parts, Fields;
    FirstPart(k, e, p);
    if Sep in p {
      j := 0;
    } else {
      var fields := Fields(e);
      var s :| s in fields && Sep in s;
      var i :| 0 <= i < |fields| && fields[i] == s;
      FieldAt(k, e, p, i);
      j := if i < 2 then i + 1 else i + 2;
    }
  }

  lemma FirstPart(k: Coding, e: Entry, p: string)
    ensures |Parts(k, e, p)| == 16 && Parts(k, e, p)[0] == p
  {
  }

  lemma FieldAt(k: Coding, e: Entry, p: string, i: nat)
    requires i < |Fields(e)|
    ensures |Fields(e)| == 14 && |Parts(k, e, p)| == 16 && Parts(k, e, p)[if i < 2 then i + 1 else i + 2] == Fields(e)[i]
  {
  }

  /** Session and request are free text: a separator in one of them can move the border to the other. */
  lemma SeparatorsInFieldsCollide(k: Coding, e: Entry, p: string)
    ensures Payload(k, e.(session := "a" + [Sep] + "b", request := "c"), p)
      == Payload(k, e.(session := "a", request := "b" + [Sep] + "c"), p)
  {
    hide Join;
    var one := Parts(k, e.(session := "a" + [Sep] + "b", request := "c"), p);
    assert ("a" + [Sep] + "b") + [Sep] + "c" == "a" + [Sep] + ("b" + [Sep] + "c");
    MoveBorder(one, 12, "a", "b" + [Sep] + "c");
    assert one[12 := "a"][13 := "b" + [Sep] + "c"] == Parts(k, e.(session := "a", request := "b" + [Sep] + "c"), p);
  }

  // ---- Saving ----

  /** The order of the trail: by time, then by id. */
  predicate Later(a: Entry, b: Entry) { a.time > b.time || (a.time == b.time && StringLess(b.id, a.id)) }

  /** The hash of the tenant's latest row; empty if there is none. */
  function LatestHash(rows: seq<Row>, tenant: string): string {
    match Latest(rows, tenant)
    case None => ""
    case Some(r) => r.hash
  }

  function Latest(rows: seq<Row>, tenant: string): Option<Row> {
    if rows == [] then None
    else
      var last, best := rows[|rows| - 1], Latest(rows[..|rows| - 1], tenant);
      if last.entry.tenant == tenant && (best.None? || Later(last.entry, best.value.entry)) then Some(last) else best
  }

  function RowFor(k: Coding, rows: seq<Row>, e: Entry): Row {
    var prev := LatestHash(rows, e.tenant);
    Row(e, prev, k.hash(Payload(k, e, prev)))
  }

  function Saved(k: Coding, es: seq<Entry>): seq<Row> {
    if es == [] then []
    else var rows := Saved(k, es[..|es| - 1]); rows + [RowFor(k, rows, es[|es| - 1])]
  }

  class Repo {
    var rows: seq<Row>
    ghost var saved: seq<Entry>
    const coding: Coding

    ghost predicate Valid()
      reads this
    { rows == Saved(coding, saved) }

    constructor (k: Coding)
      ensures Valid() && saved == [] && coding == k
    {
      rows, saved, coding := [], [], k;
    }

    method Save(e: Entry)
      requires Valid()
      modifies this
      ensures Valid() && saved == old(saved) + [e] && rows == old(rows) + [RowFor(coding, old(rows), e)]
    {
      var prevHash := LatestHash(rows, e.tenant);
      var payload := HashedText(coding, e, prevHash);
      rows := rows + [Row(e, prevHash, coding.hash(payload))];
      saved := saved + [e];
      assert saved[..|saved| - 1] == old(saved);
    }
  }

  // ---- One chain per tenant ----

  function EntriesOf(es: seq<Entry>, tenant: string): seq<Entry> {
    if es == [] then []
    else
      var last, front := es[|es| - 1], EntriesOf(es[..|es| - 1], tenant);
      if last.tenant == tenant then front + [last] else front
  }

  function RowsOf(rows: seq<Row>, tenant: string): seq<Row> {
    if rows == [] then []
    else
      var last, front := rows[|rows| - 1], RowsOf(rows[..|rows| - 1], tenant);
      if last.entry.tenant == tenant then front + [last] else front
  }

  lemma {:induction false} LatestIsOwn(rows: seq<Row>, tenant: string)
    ensures Latest(rows, tenant) == Latest(RowsOf(rows, tenant), tenant)
  {
    if rows != [] {
      LatestIsOwn(rows[..|rows| - 1], tenant);
      var own := RowsOf(rows, tenant);
      if rows[|rows| - 1].entry.tenant == tenant {
        assert own[..|own| - 1] == RowsOf(rows[..|rows| - 1], tenant);
      }
    }
  }

  /** The trail of a tenant is what saving its own entries alone would give. */
  lemma {:induction false} TenantsAreIndependent(k: Coding, es: seq<Entry>, tenant: string)
    ensures RowsOf(Saved(k, es), tenant) == Saved(k, EntriesOf(es, tenant))
  {
    if es != [] {
      var front, last := es[..|es| - 1], es[|es| - 1];
      TenantsAreIndependent(k, front, tenant);
      var rows := Saved(k, es);
      assert rows[..|rows| - 1] == Saved(k, front);
      LatestIsOwn(Saved(k, front), last.tenant);
      if last.tenant == tenant {
        var own := EntriesOf(es, tenant);
        assert own[..|own| - 1] == EntriesOf(front, tenant);
      }
    }
  }

  /** Each row carries the hash of the row before it. */
  predicate Linked(rows: seq<Row>) {
    forall i | 0 <= i < |rows| :: LinkedAt(rows, i)
  }

  predicate LinkedAt(rows: seq<Row>, i: nat)
    requires i < |rows|
  {
    rows[i].prevHash == if i == 0 then "" else rows[i - 1].hash
  }

  /** Each row carries its own hash. */
  predicate Hashed(k: Coding, rows: seq<Row>) {
    forall i | 0 <= i < |rows| :: rows[i].hash == k.hash(Payload(k, rows[i].entry, rows[i].prevHash))
  }

  predicate OwnedBy(es: seq<Entry>, tenant: string) { forall e | e in es :: e.tenant == tenant }

  predicate RowsOwnedBy(rows: seq<Row>, tenant: string) { forall r | r in rows :: r.entry.tenant == tenant }

  predicate Ascends(es: seq<Entry>) {
    forall i | 0 < i < |es| :: Later(es[i], es[i - 1])
  }

  predicate HashesDiffer(rows: seq<Row>) {
    forall i, j | 0 <= i < j < |rows| :: rows[i].hash != rows[j].hash
  }

  lemma {:induction false} SavedAt(k: Coding, es: seq<Entry>, i: nat)
    requires i < |es|
    ensures |Saved(k, es)| == |es| && Saved(k, es)[..i] == Saved(k, es[..i]) && Saved(k, es)[i] == RowFor(k, Saved(k, es[..i]), es[i])
    decreases |es|
  {
    hide RowFor;
    var front := es[..|es| - 1];
    if i < |front| {
      SavedAt(k, front, i);
      assert front[..i] == es[..i];
    } else if front != [] {
      SavedAt(k, front, 0);
    }
  }

  lemma {:induction false} LatestIsThere(rows: seq<Row>, tenant: string)
    requires rows != [] && RowsOwnedBy(rows, tenant)
    ensures Latest(rows, tenant).Some? && Latest(rows, tenant).value in rows
  {
    assert rows[|rows| - 1] in rows;
    if |rows| > 1 { LatestIsThere(rows[..|rows| - 1], tenant); }
  }

  /** The latest row is the last one at every point of an ascending trail. */
  lemma {:induction false} LatestIsLast(rows: seq<Row>, tenant: string)
    requires rows != [] && RowsOwnedBy(rows, tenant) && forall i | 0 < i < |rows| :: Later(rows[i].entry, rows[i - 1].entry)
    ensures Latest(rows, tenant) == Some(rows[|rows| - 1])
  {
    assert rows[|rows| - 1] in rows;
    if |rows| > 1 { LatestIsLast(rows[..|rows| - 1], tenant); }
  }

  /** A row is linked to the one before it exactly when that one was the latest. */
  lemma LinkedAtIff(k: Coding, es: seq<Entry>, tenant: string, i: nat)
    requires OwnedBy(es, tenant) && 0 < i < |es| && |Saved(k, es)| == |es|
    ensures RowsOwnedBy(Saved(k, es)[..i], tenant)
    ensures Latest(Saved(k, es)[..i], tenant) == Some(Saved(k, es)[i - 1]) ==> Saved(k, es)[i].prevHash == Saved(k, es)[i - 1].hash
    ensures HashesDiffer(Saved(k, es)) && Saved(k, es)[i].prevHash == Saved(k, es)[i - 1].hash
      ==> Latest(Saved(k, es)[..i], tenant) == Some(Saved(k, es)[i - 1])
  {
    var rows := Saved(k, es);
    SavedAt(k, es, i);
    assert es[i] in es;
    forall r | r in rows[..i] ensures r.entry.tenant == tenant {
      var j :| 0 <= j < i && rows[j] == r;
      SavedAt(k, es, j);
      assert es[j] in es;
    }
    LatestIsThere(rows[..i], tenant);
    if HashesDiffer(rows) && rows[i].prevHash == rows[i - 1].hash {
      var r := Latest(rows[..i], tenant).value;
      var j :| 0 <= j < i && rows[j] == r;
    }
  }

  /** Where each row but the last was the latest when the next one came, the trail ascends. */
  lemma LatestAscends(rows: seq<Row>, tenant: string, n: nat, i: nat)
    requires 0 < i < n <= |rows| && HashesDiffer(rows)
    requires forall j | 0 < j <= n :: Latest(rows[..j], tenant) == Some(rows[j - 1])
    ensures Later(rows[i].entry, rows[i - 1].entry)
  {
    assert rows[..i + 1][..i] == rows[..i];
    assert Latest(rows[..i], tenant) == Some(rows[i - 1]) && Latest(rows[..i + 1], tenant) == Some(rows[i]);
  }

  lemma EntriesKept(k: Coding, es: seq<Entry>)
    ensures |Saved(k, es)| == |es| && forall i | 0 <= i < |es| :: Saved(k, es)[i].entry == es[i]
    ensures Hashed(k, Saved(k, es))
  {
    hide Saved, Payload, LatestHash;
    if es == [] { SavedNothing(k); }
    forall i | 0 <= i < |es|
      ensures |Saved(k, es)| == |es| && Saved(k, es)[i].entry == es[i]
      ensures Saved(k, es)[i].hash == k.hash(Payload(k, es[i], Saved(k, es)[i].prevHash))
    {
      SavedAt(k, es, i);
    }
    if es != [] { SavedAt(k, es, 0); }
  }

  lemma SavedNothing(k: Coding)
    ensures Saved(k, []) == []
  {
  }

  /** At every point of an ascending trail the row before was the latest. */
  lemma AscendingLatest(k: Coding, es: seq<Entry>, tenant: string, i: nat)
    requires 0 < i < |es| && OwnedBy(es, tenant) && Ascends(es[..|es| - 1])
    ensures |Saved(k, es)| == |es| && Latest(Saved(k, es)[..i], tenant) == Some(Saved(k, es)[i - 1])
  {
    hide Saved, Later, RowFor, Latest, Hashed, OwnedBy;
    EntriesKept(k, es);
    var rows, front := Saved(k, es), es[..|es| - 1];
    LinkedAtIff(k, es, tenant, i);
    forall j | 0 < j < i ensures Later(rows[j].entry, rows[j - 1].entry) {
      assert front[j] == es[j] && front[j - 1] == es[j - 1];
    }
    LatestIsLast(rows[..i], tenant);
  }

  /** Entries saved in the order of the trail form one linked chain. */
  lemma AscendingIsLinked(k: Coding, es: seq<Entry>, tenant: string)
    requires OwnedBy(es, tenant) && es != [] && Ascends(es[..|es| - 1])
    ensures Linked(Saved(k, es))
  {
    hide Saved, RowFor, Latest, Hashed, OwnedBy, Ascends, RowsOwnedBy, HashesDiffer;
    EntriesKept(k, es);
    var rows := Saved(k, es);
    forall i | 0 <= i < |rows| ensures LinkedAt(rows, i) {
      if i == 0 {
        FirstRow(k, es);
      } else {
        AscendingLatest(k, es, tenant, i);
        LinkedAtIff(k, es, tenant, i);
      }
    }
  }

  lemma {:induction false} OwnEntries(es: seq<Entry>, tenant: string)
    ensures OwnedBy(EntriesOf(es, tenant), tenant)
  {
    if es != [] { OwnEntries(es[..|es| - 1], tenant); }
  }

  /** Whatever the order of saving between tenants: a tenant whose own entries come in order has one linked chain. */
  lemma EachTenantIsLinked(k: Coding, es: seq<Entry>, tenant: string)
    requires Ascends(EntriesOf(es, tenant))
    ensures Linked(RowsOf(Saved(k, es), tenant)) && Hashed(k, RowsOf(Saved(k, es), tenant))
  {
    hide Saved, Later, EntriesOf, Hashed, RowsOf;
    var own := EntriesOf(es, tenant);
    TenantsAreIndependent(k, es, tenant);
    OwnEntries(es, tenant);
    EntriesKept(k, own);
    if own != [] { AscendingIsLinked(k, own, tenant); }
  }

  lemma FirstRow(k: Coding, es: seq<Entry>)
    requires es != []
    ensures Saved(k, es) != [] && Saved(k, es)[0].prevHash == ""
  {
    SavedAt(k, es, 0);
  }

  /** Exactly so: with different hashes, the trail is one linked chain if and only if all entries but possibly the
      last were saved in order. */
  lemma LinkedIffSavedInOrder(k: Coding, es: seq<Entry>, tenant: string)
    requires OwnedBy(es, tenant) && es != [] && HashesDiffer(Saved(k, es))
    ensures Linked(Saved(k, es)) <==> Ascends(es[..|es| - 1])
  {
    hide Saved, Later, RowFor, Latest, HashesDiffer;
    EntriesKept(k, es);
    var rows := Saved(k, es);
    if Ascends(es[..|es| - 1]) { AscendingIsLinked(k, es, tenant); }
    if Linked(rows) {
      forall i | 0 < i < |es| ensures Latest(rows[..i], tenant) == Some(rows[i - 1]) {
        assert LinkedAt(rows, i);
        LinkedAtIff(k, es, tenant, i);
      }
      forall i | 0 < i < |es| - 1 ensures Later(es[i], es[i - 1]) {
        LatestAscends(rows, tenant, |es| - 1, i);
      }
    }
  }

  /** An entry saved late, with a time before the latest one, forks the chain: the next entry is linked past it. */
  lemma LateEntryForks(k: Coding, es: seq<Entry>, late: Entry, next: Entry)
    requires late.tenant == next.tenant && Latest(Saved(k, es), late.tenant).Some?
    requires !Later(late, Latest(Saved(k, es), late.tenant).value.entry)
    ensures
      var x, rows := Latest(Saved(k, es), late.tenant).value, Saved(k, es + [late] + [next]);
      |rows| == |Saved(k, es)| + 2 && rows[|rows| - 2].prevHash == x.hash && rows[|rows| - 1].prevHash == x.hash
  {
    hide Payload, Later;
    var rows := Saved(k, es);
    assert (es + [late])[..|es|] == es;
    assert (es + [late] + [next])[..|es| + 1] == es + [late];
    var row := RowFor(k, rows, late);
    assert (rows + [row])[..|rows|] == rows;
  }

  // ---- The nightly verifier ----

  /** What the verifier makes of a tenant's rows; the index is that of the first broken one. */
  datatype Verdict = Healthy | PrevMismatch(at: nat) | HashMismatch(at: nat)

  /** `read` is the entry as its columns read back when the hash is computed again. */
  predicate RowHealthy(k: Coding, read: Entry -> Entry, q: seq<Row>, i: nat)
    requires i < |q|
  {
    LinkedAt(q, i) && q[i].hash == k.hash(Payload(k, read(q[i].entry), q[i].prevHash))
  }

  /** The walk over a tenant's rows by time and id. */
  method VerifyChain(k: Coding, read: Entry -> Entry, q: seq<Row>) returns (v: Verdict)
    ensures v.Healthy? <==> forall i | 0 <= i < |q| :: RowHealthy(k, read, q, i)
    ensures !v.Healthy? ==> v.at < |q| && !RowHealthy(k, read, q, v.at) && forall i | 0 <= i < v.at :: RowHealthy(k, read, q, i)
    ensures v.PrevMismatch? ==> !LinkedAt(q, v.at)
    ensures v.HashMismatch? ==> LinkedAt(q, v.at)
  {
    var expected := "";
    for i := 0 to |q|
      invariant expected == if i == 0 then "" else q[i - 1].hash
      invariant forall j | 0 <= j < i :: RowHealthy(k, read, q, j)
    {
      assert LinkedAt(q, i) <==> q[i].prevHash == expected;
      assert RowHealthy(k, read, q, i) <==> LinkedAt(q, i) && q[i].hash == k.hash(Payload(k, read(q[i].entry), q[i].prevHash));
      if q[i].prevHash != expected { return PrevMismatch(i); }
      var composed := HashedText(k, read(q[i].entry), q[i].prevHash);
      if k.hash(composed) != q[i].hash { return HashMismatch(i); }
      expected := q[i].hash;
    }
    return Healthy;
  }

  /** The rows in the order of the trail. */
  predicate IsTrail(rows: seq<Row>, q: seq<Row>) {
    |q| == |rows| && (forall r | r in q :: r in rows) && forall i, j | 0 <= i < j < |q| :: Later(q[j].entry, q[i].entry)
  }

  /** Where each row of the trail stands among the saved ones. */
  ghost predicate Places(rows: seq<Row>, q: seq<Row>, at: seq<nat>) {
    |at| == |q| && forall i | 0 <= i < |q| :: at[i] < |rows| && q[i] == rows[at[i]]
  }

  lemma {:induction false} PlacesExist(rows: seq<Row>, q: seq<Row>) returns (at: seq<nat>)
    requires forall r | r in q :: r in rows
    ensures Places(rows, q, at)
  {
    at := [];
    if q != [] {
      var front := PlacesExist(rows, q[..|q| - 1]);
      assert q[|q| - 1] in rows;
      var m :| 0 <= m < |rows| && rows[m] == q[|q| - 1];
      at := front + [m];
    }
  }

  lemma {:induction false} IncreasingFits(at: seq<nat>, i: nat)
    requires (forall j | 0 < j < |at| :: at[j - 1] < at[j]) && i < |at|
    ensures at[i] >= i
  {
    if i > 0 { IncreasingFits(at, i - 1); }
  }

  lemma {:induction false} IncreasingFitsBelow(at: seq<nat>, i: nat)
    requires (forall j | 0 < j < |at| :: at[j - 1] < at[j]) && (forall j | 0 <= j < |at| :: at[j] < |at|) && i < |at|
    ensures at[i] <= i
    decreases |at| - i
  {
    if i + 1 < |at| { IncreasingFitsBelow(at, i + 1); }
  }

  /** A listing of all rows whose places increase is the saved order. */
  lemma IncreasingPlacesAreAll(rows: seq<Row>, q: seq<Row>, at: seq<nat>)
    requires Places(rows, q, at) && |q| == |rows| && forall j | 0 < j < |at| :: at[j - 1] < at[j]
    ensures q == rows
  {
    forall i | 0 <= i < |q| ensures q[i] == rows[i] {
      IncreasingFits(at, i);
      IncreasingFitsBelow(at, i);
    }
  }

  lemma LaterIsOrder(a: Entry, b: Entry, c: Entry)
    ensures !Later(a, a) && (Later(a, b) && Later(b, c) ==> Later(a, c))
  {
    StringOrder(c.id, b.id, a.id);
    StringOrder(a.id, a.id, a.id);
  }

  lemma {:induction false} AscendsPairwise(es: seq<Entry>, i: nat, j: nat)
    requires Ascends(es) && i < j < |es|
    ensures Later(es[j], es[i])
    decreases j
  {
    hide Later;
    if i + 1 < j {
      AscendsPairwise(es, i, j - 1);
      LaterIsOrder(es[j], es[j - 1], es[i]);
    }
  }

  /** Saved in order, the saved rows are the trail. */
  lemma AscendingIsTrail(k: Coding, es: seq<Entry>, q: seq<Row>)
    requires Ascends(es) && IsTrail(Saved(k, es), q)
    ensures q == Saved(k, es)
  {
    hide Saved, Later, Payload;
    EntriesKept(k, es);
    var rows := Saved(k, es);
    var at := PlacesExist(rows, q);
    forall j | 0 < j < |at| ensures at[j - 1] < at[j] {
      LaterIsOrder(q[j].entry, q[j - 1].entry, q[j].entry);
      if at[j] < at[j - 1] { AscendsPairwise(es, at[j], at[j - 1]); }
    }
    IncreasingPlacesAreAll(rows, q, at);
  }

  /** A later row's previous hash is that of a row saved before it. */
  lemma PreviousWasSaved(k: Coding, es: seq<Entry>, tenant: string, m: nat, n: nat)
    requires Plausible(k) && OwnedBy(es, tenant) && |Saved(k, es)| == |es| && m < |es| && n < |es|
    requires HashesDiffer(Saved(k, es)) && Saved(k, es)[n].prevHash == Saved(k, es)[m].hash
    ensures m < n
  {
    hide Saved, Latest, Later, RowFor, Payload;
    var rows := Saved(k, es);
    EntriesKept(k, es);
    if n == 0 {
      FirstRow(k, es);
    } else {
      LinkedAtIff(k, es, tenant, n);
      SavedPrev(k, es, tenant, n);
      LatestIsThere(rows[..n], tenant);
      var r := Latest(rows[..n], tenant).value;
      var j :| 0 <= j < n && rows[j] == r;
    }
  }

  lemma SavedPrev(k: Coding, es: seq<Entry>, tenant: string, n: nat)
    requires OwnedBy(es, tenant) && n < |es| && |Saved(k, es)| == |es|
    ensures Saved(k, es)[n].prevHash == LatestHash(Saved(k, es)[..n], tenant)
  {
    hide Saved, Latest;
    SavedAt(k, es, n);
    assert es[n] in es;
  }

  /** A trail that is linked is the saved order. */
  lemma LinkedTrailIsSaved(k: Coding, es: seq<Entry>, tenant: string, q: seq<Row>)
    requires Plausible(k) && OwnedBy(es, tenant) && HashesDiffer(Saved(k, es)) && IsTrail(Saved(k, es), q) && Linked(q)
    ensures q == Saved(k, es)
  {
    hide Saved, Later, Plausible, Payload, HashesDiffer;
    EntriesKept(k, es);
    var rows := Saved(k, es);
    var at := PlacesExist(rows, q);
    forall j | 0 < j < |at| ensures at[j - 1] < at[j] {
      assert LinkedAt(q, j);
      PreviousWasSaved(k, es, tenant, at[j - 1], at[j]);
    }
    IncreasingPlacesAreAll(rows, q, at);
  }

  /** The entry's hash comes out the same when its columns are read back. */
  predicate HashesBack(k: Coding, read: Entry -> Entry, rows: seq<Row>) {
    forall r | r in rows :: k.hash(Payload(k, read(r.entry), r.prevHash)) == r.hash
  }

  /** On a tenant's rows, walked in the order of the trail, the verifier finds nothing exactly when all entries, the last
      included, were saved in order and every entry hashes back. */
  lemma VerifierHealthyIff(k: Coding, read: Entry -> Entry, es: seq<Entry>, tenant: string, q: seq<Row>)
    requires Plausible(k) && OwnedBy(es, tenant) && HashesDiffer(Saved(k, es)) && IsTrail(Saved(k, es), q)
    ensures (forall i | 0 <= i < |q| :: RowHealthy(k, read, q, i)) <==> Ascends(es) && HashesBack(k, read, Saved(k, es))
  {
    hide Saved, Later, Plausible, Payload, HashesDiffer, RowFor;
    EntriesKept(k, es);
    var rows := Saved(k, es);
    if forall i | 0 <= i < |q| :: RowHealthy(k, read, q, i) {
      assert Linked(q) by { forall i | 0 <= i < |q| ensures LinkedAt(q, i) { assert RowHealthy(k, read, q, i); } }
      LinkedTrailIsSaved(k, es, tenant, q);
      forall i | 0 < i < |es| ensures Later(es[i], es[i - 1]) { assert q[i].entry == es[i] && q[i - 1].entry == es[i - 1]; }
      forall r | r in rows ensures k.hash(Payload(k, read(r.entry), r.prevHash)) == r.hash {
        var i :| 0 <= i < |rows| && rows[i] == r;
        assert RowHealthy(k, read, q, i);
      }
    }
    if Ascends(es) && HashesBack(k, read, rows) {
      AscendingIsTrail(k, es, q);
      if es != [] {
        FrontAscends(es);
        AscendingIsLinked(k, es, tenant);
      }
      forall i | 0 <= i < |q| ensures RowHealthy(k, read, q, i) { assert LinkedAt(rows, i) && rows[i] in rows; }
    }
  }

  lemma {:induction false} LatestHashIsClean(k: Coding, rows: seq<Row>, tenant: string)
    requires Plausible(k) && Hashed(k, rows)
    ensures Sep !in LatestHash(rows, tenant)
    decreases |rows|
  {
    hide Payload;
    if rows != [] {
      var front := rows[..|rows| - 1];
      assert Hashed(k, front);
      LatestHashIsClean(k, front, tenant);
    }
  }

  /** With a hash that has no collisions, clean entries hash back exactly when each reads back as it was. */
  lemma HashesBackIff(k: Coding, read: Entry -> Entry, es: seq<Entry>)
    requires Plausible(k) && (forall x, y :: k.hash(x) == k.hash(y) ==> x == y) && forall e | e in es :: Clean(e)
    ensures HashesBack(k, read, Saved(k, es)) <==> forall e | e in es :: read(e) == e
  {
    hide Saved, Payload, Clean, Plausible, Later;
    EntriesKept(k, es);
    var rows := Saved(k, es);
    forall i | 0 <= i < |rows|
      ensures k.hash(Payload(k, read(rows[i].entry), rows[i].prevHash)) == rows[i].hash <==> read(es[i]) == es[i]
    {
      assert es[i] in es;
      SavedAt(k, es, i);
      EntriesKept(k, es[..i]);
      LatestHashIsClean(k, Saved(k, es[..i]), es[i].tenant);
      if Payload(k, read(es[i]), rows[i].prevHash) == Payload(k, es[i], rows[i].prevHash) {
        PayloadTellsApart(k, es[i], rows[i].prevHash, read(es[i]), rows[i].prevHash);
      }
    }
    if HashesBack(k, read, rows) {
      forall e | e in es ensures read(e) == e {
        var i :| 0 <= i < |es| && es[i] == e;
        assert rows[i] in rows;
      }
    }
  }

  lemma FrontAscends(es: seq<Entry>)
    requires Ascends(es) && es != []
    ensures Ascends(es[..|es| - 1])
  {
  }

  // ---- The last hash fixes the chain ----

  /** Two different payloads with the same hash, one from each trail. */
  ghost predicate Collision(k: Coding, a: seq<Row>, b: seq<Row>) {
    exists i, j :: CollidesAt(k, a, b, i, j)
  }

  predicate CollidesAt(k: Coding, a: seq<Row>, b: seq<Row>, i: int, j: int) {
    && 0 <= i < |a| && 0 <= j < |b|
    && Payload(k, a[i].entry, a[i].prevHash) != Payload(k, b[j].entry, b[j].prevHash)
    && k.hash(Payload(k, a[i].entry, a[i].prevHash)) == k.hash(Payload(k, b[j].entry, b[j].prevHash))
  }

  predicate Chain(k: Coding, rows: seq<Row>) { Linked(rows) && Hashed(k, rows) }

  lemma ChainFront(k: Coding, rows: seq<Row>)
    requires Chain(k, rows) && rows != []
    ensures Chain(k, rows[..|rows| - 1])
  {
    var front := rows[..|rows| - 1];
    forall i | 0 <= i < |front| ensures LinkedAt(front, i) { assert LinkedAt(rows, i); }
  }

  /** A chain of clean entries and any other chain, altered at will, with the same last hash are the same in every
      field of every entry, or a collision of the hash has been found. */
  lemma {:induction false} LastHashFixesChain(k: Coding, a: seq<Row>, b: seq<Row>)
    requires Plausible(k) && Chain(k, a) && Chain(k, b) && a != [] && b != [] && forall r | r in a :: Clean(r.entry)
    requires a[|a| - 1].hash == b[|b| - 1].hash
    ensures a == b || Collision(k, a, b)
    decreases |a|
  {
    hide Payload, Clean;
    var m, n := |a| - 1, |b| - 1;
    var x, y := a[m], b[n];
    assert x in a && LinkedAt(a, m) && LinkedAt(b, n);
    if Payload(k, x.entry, x.prevHash) != Payload(k, y.entry, y.prevHash) {
      assert CollidesAt(k, a, b, m, n);
    } else {
      PayloadTellsApart(k, x.entry, x.prevHash, y.entry, y.prevHash);
      assert x == y;
      if m > 0 && n > 0 {
        ChainFront(k, a);
        ChainFront(k, b);
        LastHashFixesChain(k, a[..m], b[..n]);
        if Collision(k, a[..m], b[..n]) {
          var i, j :| CollidesAt(k, a[..m], b[..n], i, j);
          assert CollidesAt(k, a, b, i, j);
        } else {
          assert a == a[..m] + [x] && b == b[..n] + [y];
        }
      }
    }
  }

  /** With a hash that has no collisions, two tenants' trails saved in order agree in their last hash only if
      they agree in everything. */
  lemma SameLastHashSameTrail(k: Coding, a: seq<Entry>, b: seq<Entry>, t: string, u: string)
    requires Plausible(k) && (forall x, y :: k.hash(x) == k.hash(y) ==> x == y)
    requires a != [] && b != [] && OwnedBy(a, t) && OwnedBy(b, u) && Ascends(a) && Ascends(b) && forall e | e in a :: Clean(e)
    requires |Saved(k, a)| == |a| && |Saved(k, b)| == |b| && Saved(k, a)[|a| - 1].hash == Saved(k, b)[|b| - 1].hash
    ensures a == b
  {
    hide Saved, Payload, Clean, Later, Plausible, Linked, Hashed, Collision;
    EntriesKept(k, a);
    EntriesKept(k, b);
    AscendingIsLinked(k, a, t);
    AscendingIsLinked(k, b, u);
    var ra, rb := Saved(k, a), Saved(k, b);
    forall r | r in ra ensures Clean(r.entry) {
      var i :| 0 <= i < |ra| && ra[i] == r;
      assert r.entry == a[i];
    }
    NoCollisions(k, ra, rb);
    LastHashFixesChain(k, ra, rb);
    forall i | 0 <= i < |a| ensures a[i] == b[i] { assert ra[i].entry == a[i] && rb[i].entry == b[i]; }
  }

  lemma NoCollisions(k: Coding, a: seq<Row>, b: seq<Row>)
    requires forall x, y :: k.hash(x) == k.hash(y) ==> x == y
    ensures !Collision(k, a, b)
  {
  }
}
