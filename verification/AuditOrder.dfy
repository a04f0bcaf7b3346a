/** The order of the audit trail and the hashed text, written out. */
module AuditOrder {
  import opened Wrappers
  import opened Text
  import opened Sorting
  import opened AuditChain

  /** The later time comes first, and among equal times the greater id. */
  ghost predicate Newer(a: Entry, b: Entry) {
    a.time > b.time || (a.time == b.time && Before(b.id, a.id))
  }

  lemma LaterIff(a: Entry, b: Entry)
    ensures Later(a, b) <==> Newer(a, b)
  {
    LessIsBefore(b.id, a.id);
  }

  /** The earlier time, or among equal times no greater id. */
  ghost predicate NotNewer(a: Entry, b: Entry) {
    a.time < b.time || (a.time == b.time && (a.id == b.id || Before(a.id, b.id)))
  }

  lemma NewerOrNot(a: Entry, b: Entry, c: Entry)
    ensures NotNewer(a, b) <==> !Newer(a, b)
    ensures NotNewer(a, b) && NotNewer(b, c) ==> NotNewer(a, c)
    ensures Newer(a, b) ==> NotNewer(b, a)
  {
    hide Before, StringLess;
    LessIsBefore(a.id, b.id);
    LessIsBefore(b.id, a.id);
    LessIsBefore(b.id, c.id);
    LessIsBefore(a.id, c.id);
    StringOrder(a.id, b.id, a.id);
    StringOrder(a.id, b.id, c.id);
    StringOrder(b.id, a.id, b.id);
  }

  /** What is looked up is a newest row of the tenant. */
  ghost predicate IsNewest(rows: seq<Row>, tenant: string, r: Row) {
    r in rows && r.entry.tenant == tenant && forall x | x in rows && x.entry.tenant == tenant :: NotNewer(x.entry, r.entry)
  }

  lemma {:induction false} LatestIsNewest(rows: seq<Row>, tenant: string)
    ensures Latest(rows, tenant).None? <==> forall x | x in rows :: x.entry.tenant != tenant
    ensures Latest(rows, tenant).Some? ==> IsNewest(rows, tenant, Latest(rows, tenant).value)
  {
    hide NotNewer, Newer, Later;
    if rows != [] {
      var front, last := rows[..|rows| - 1], rows[|rows| - 1];
      LatestIsNewest(front, tenant);
      assert rows == front + [last];
      NewerOrNot(last.entry, last.entry, last.entry);
      if last.entry.tenant == tenant && Latest(front, tenant).Some? {
        var best := Latest(front, tenant).value;
        LaterIff(last.entry, best.entry);
        NewerOrNot(last.entry, best.entry, best.entry);
        forall x | x in front && x.entry.tenant == tenant ensures NotNewer(best.entry, last.entry) ==> NotNewer(x.entry, last.entry) {
          NewerOrNot(x.entry, best.entry, last.entry);
        }
      }
      NotNewerThanItself(last.entry);
    }
  }

  lemma NotNewerThanItself(a: Entry)
    ensures NotNewer(a, a)
  {
  }

  lemma JoinCons(a: string, rest: seq<string>)
    requires rest != []
    ensures Join([a] + rest, Sep) == a + ("\U{1F}" + Join(rest, Sep))
  {
    assert ([a] + rest)[1..] == rest;
    assert a + [Sep] + Join(rest, Sep) == a + ([Sep] + Join(rest, Sep));
  }

  lemma JoinFour(a: string, b: string, c: string, d: string, rest: seq<string>)
    requires rest != []
    ensures Join([a, b, c, d] + rest, Sep) == a + ("\U{1F}" + (b + ("\U{1F}" + (c + ("\U{1F}" + (d + ("\U{1F}" + Join(rest, Sep))))))))
  {
    hide Join;
    JoinCons(d, rest);
    JoinCons(c, [d] + rest);
    JoinCons(b, [c] + ([d] + rest));
    JoinCons(a, [b] + ([c] + ([d] + rest)));
    assert [a, b, c, d] + rest == [a] + ([b] + ([c] + ([d] + rest)));
  }

  /** The text that is hashed for an entry, part by part. */
  lemma PayloadText(k: Coding, e: Entry, prev: string)
    ensures Payload(k, e, prev) ==
      prev + ("\U{1F}" + (e.id + ("\U{1F}" + (e.tenant + ("\U{1F}" + (k.stamp(e.time) + ("\U{1F}"
      + (e.actor + ("\U{1F}" + (e.action + ("\U{1F}" + (e.entity + ("\U{1F}" + (e.target + ("\U{1F}"
      + (e.ip + ("\U{1F}" + (e.agent + ("\U{1F}" + (e.outcome + ("\U{1F}" + (e.severity + ("\U{1F}"
      + (e.session + ("\U{1F}" + (e.request + ("\U{1F}" + (e.before + ("\U{1F}" + e.after)))))))))))))))))))))))))))))
  {
    hide Join;
    var last := [e.session, e.request, e.before, e.after];
    JoinCons(e.before, [e.after]);
    JoinLast(e.after);
    JoinCons(e.request, [e.before] + [e.after]);
    JoinCons(e.session, [e.request] + ([e.before] + [e.after]));
    assert last == [e.session] + ([e.request] + ([e.before] + [e.after]));
    JoinFour(e.ip, e.agent, e.outcome, e.severity, last);
    JoinFour(e.actor, e.action, e.entity, e.target, [e.ip, e.agent, e.outcome, e.severity] + last);
    var rest := [e.actor, e.action, e.entity, e.target] + ([e.ip, e.agent, e.outcome, e.severity] + last);
    JoinFour(prev, e.id, e.tenant, k.stamp(e.time), rest);
    assert Parts(k, e, prev) == [prev, e.id, e.tenant, k.stamp(e.time)] + rest;
  }

  // ---- What every saved row takes over ----

  /** No entry of the tenant before the i-th. */
  predicate IsFirst(es: seq<Entry>, i: nat)
    requires i < |es|
  {
    forall m | 0 <= m < i :: es[m].tenant != es[i].tenant
  }

  /** Before the i-th entry the j-th is a newest one of its tenant. */
  ghost predicate IsPredecessor(es: seq<Entry>, i: nat, j: nat)
    requires i < |es|
  {
    j < i && es[j].tenant == es[i].tenant
    && forall m | 0 <= m < i && es[m].tenant == es[i].tenant :: NotNewer(es[m], es[j])
  }

  /** Every row keeps its entry and the hash of its text, and takes over the hash of a row saved before it for the same tenant
      whose time is not below that of any other, nor its id among equal times; the tenant's first takes over nothing. */
  lemma EveryRowTakesTheNewest(k: Coding, es: seq<Entry>, i: nat)
    requires i < |es|
    ensures var rows := Saved(k, es);
      && |rows| == |es| && rows[i].entry == es[i] && rows[i].hash == k.hash(Payload(k, es[i], rows[i].prevHash))
      && (if IsFirst(es, i) then rows[i].prevHash == ""
          else exists j: nat :: IsPredecessor(es, i, j) && rows[i].prevHash == rows[j].hash)
  {
    hide Saved, Payload, Latest, IsFirst, IsPredecessor;
    SavedAt(k, es, i);
    EntriesKept(k, es);
    if IsFirst(es, i) {
      NoneBefore(Saved(k, es), es, i);
    } else {
      var j := NewestBefore(Saved(k, es), es, i);
    }
  }

  lemma NoneBefore(rows: seq<Row>, es: seq<Entry>, i: nat)
    requires i < |es| == |rows| && IsFirst(es, i) && forall m | 0 <= m < i :: rows[m].entry == es[m]
    ensures Latest(rows[..i], es[i].tenant).None?
  {
    hide Latest, IsNewest;
    LatestIsNewest(rows[..i], es[i].tenant);
    forall x | x in rows[..i] ensures x.entry.tenant != es[i].tenant {
      var m :| 0 <= m < i && rows[m] == x;
    }
  }

  lemma NewestBefore(rows: seq<Row>, es: seq<Entry>, i: nat) returns (j: nat)
    requires i < |es| == |rows| && !IsFirst(es, i) && forall m | 0 <= m < i :: rows[m].entry == es[m]
    ensures IsPredecessor(es, i, j) && Latest(rows[..i], es[i].tenant) == Some(rows[j])
  {
    hide Latest, NotNewer;
    LatestIsNewest(rows[..i], es[i].tenant);
    var m :| 0 <= m < i && es[m].tenant == es[i].tenant;
    assert rows[..i][m] in rows[..i];
    var r := Latest(rows[..i], es[i].tenant).value;
    j :| 0 <= j < i && rows[j] == r;
    forall n | 0 <= n < i && es[n].tenant == es[i].tenant ensures NotNewer(es[n], es[j]) {
      assert rows[..i][n] in rows[..i];
    }
  }

  /** The tenant's entries were saved by rising time, and by rising id at equal times. */
  ghost predicate Rises(es: seq<Entry>, tenant: string) {
    forall m, j | 0 <= m < j < |es| && es[m].tenant == es[j].tenant == tenant ::
      es[m].time < es[j].time || (es[m].time == es[j].time && Before(es[m].id, es[j].id))
  }

  /** Such a tenant has one chain: its first row takes over nothing, and any other the hash of the tenant's row just before. */
  lemma RisingIsLinked(k: Coding, es: seq<Entry>, i: nat)
    requires i < |es| && Rises(es, es[i].tenant)
    ensures |Saved(k, es)| == |es|
    ensures IsFirst(es, i) ==> Saved(k, es)[i].prevHash == ""
    ensures forall j | 0 <= j < i && es[j].tenant == es[i].tenant && (forall m | j < m < i :: es[m].tenant != es[i].tenant) ::
      Saved(k, es)[i].prevHash == Saved(k, es)[j].hash
  {
    hide Saved, Before, NotNewer;
    EveryRowTakesTheNewest(k, es, i);
    forall j | 0 <= j < i && es[j].tenant == es[i].tenant && (forall m | j < m < i :: es[m].tenant != es[i].tenant)
      ensures Saved(k, es)[i].prevHash == Saved(k, es)[j].hash
    {
      assert !IsFirst(es, i);
      var p: nat :| IsPredecessor(es, i, p) && Saved(k, es)[i].prevHash == Saved(k, es)[p].hash;
      if p < j {
        assert NotNewer(es[j], es[p]);
        RisesOut(es[p], es[j]);
      }
    }
  }

  lemma RisesOut(a: Entry, b: Entry)
    requires a.time < b.time || (a.time == b.time && Before(a.id, b.id))
    ensures !NotNewer(b, a)
  {
    hide Before;
    NewerOrNot(b, a, a);
  }

  function At(id: string, tenant: string, time: int): Entry {
    Entry(id, tenant, time, "", "", "", "", "", "", "", "", "", "", "", "")
  }

  const FOUR: seq<Entry> := [At("a", "t", 1), At("x", "u", 9), At("b", "t", 1), At("c", "t", 2)]

  lemma LettersAscend()
    ensures Before("a", "b")
  {
    assert IsBreak("a", "b", 0);
  }

  lemma FourRise()
    ensures Rises(FOUR, "t") && Rises(FOUR, "u")
  {
    hide Before;
    LettersAscend();
    forall m, j | 0 <= m < j < |FOUR| && FOUR[m].tenant == FOUR[j].tenant
      ensures FOUR[m].time < FOUR[j].time || (FOUR[m].time == FOUR[j].time && Before(FOUR[m].id, FOUR[j].id))
    {
      assert (m == 0 && j == 2) || FOUR[m].time < FOUR[j].time;
    }
  }

  /** Three entries of one tenant, two of them at the same time, with another tenant's between. */
  lemma ThreeAreLinked(k: Coding)
    ensures var q := Saved(k, FOUR);
      |q| == 4 && q[0].prevHash == "" && q[1].prevHash == "" && q[2].prevHash == q[0].hash && q[3].prevHash == q[2].hash
  {
    hide Saved, Before, Rises;
    FourRise();
    RisingIsLinked(k, FOUR, 0);
    RisingIsLinked(k, FOUR, 1);
    RisingIsLinked(k, FOUR, 2);
    RisingIsLinked(k, FOUR, 3);
  }
}
