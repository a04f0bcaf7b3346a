/** Which viewers see the details of a booking, and what is left of it for the others. */
module Visibility {
  import opened Wrappers

  datatype Caller = Caller(userId: string, role: string)

  datatype Resource = Resource(name: string, detailsVisibleToRole: seq<string>)

  /** The fields everybody gets, and those only the details audience does. */
  datatype Public = Public(id: string, tenant: string, resource: string, start: int, end: int, status: string,
                           recurring: bool, recurrence: string, version: int, created: int, mode: string, private: bool)
  datatype Details = Details(owner: string, title: string, notes: string, meetingUrl: string, redirectUrl: string,
                             checkedIn: Option<int>)

  datatype Booking = Booking(public: Public, resourceName: string, details: Details)

  const Blank := Details("", "", "", "", "", None)

  predicate CanSeeDetails(c: Caller, b: Booking, r: Resource) {
    if c.role == "System Admin" then true
    else if c.userId != "" && b.details.owner == c.userId then true
    else if b.public.status == "" then false
    else if b.public.private then false
    else if c.role in r.detailsVisibleToRole then true
    else c.role in ["Security Admin", "Room Admin", "Secretary"]
  }

  function Project(c: Caller, b: Booking, r: Resource): Booking {
    var named := b.(resourceName := r.name);
    if CanSeeDetails(c, named, r) then named else named.(details := Blank)
  }

  /** A resource that is not in the map counts as one without a name and without further roles. */
  function ResourceOf(b: Booking, resources: map<string, Resource>): Resource {
    if b.public.resource in resources then resources[b.public.resource] else Resource("", [])
  }

  function ProjectAll(c: Caller, bs: seq<Booking>, resources: map<string, Resource>): (out: seq<Booking>)
    ensures |out| == |bs| && forall i | 0 <= i < |bs| :: out[i] == Project(c, bs[i], ResourceOf(bs[i], resources))
  {
    seq(|bs|, i requires 0 <= i < |bs| => Project(c, bs[i], ResourceOf(bs[i], resources)))
  }

  method ProjectMany(c: Caller, bs: seq<Booking>, resources: map<string, Resource>) returns (out: seq<Booking>)
    ensures out == ProjectAll(c, bs, resources)
  {
    out := [];
    for i := 0 to |bs|
      invariant |out| == i && forall k | 0 <= k < i :: out[k] == Project(c, bs[k], ResourceOf(bs[k], resources))
    {
      var r := ResourceOf(bs[i], resources);
      out := out + [Project(c, bs[i], r)];
    }
  }

  // ---- Two runs ----

  predicate Sees(c: Caller, b: Booking, resources: map<string, Resource>) {
    CanSeeDetails(c, b, ResourceOf(b, resources))
  }

  /** The same as far as the viewer is concerned: the public fields agree, and neither or both of the two may be
      seen in full, with the same details if both. */
  predicate AlikeFor(c: Caller, a: Booking, b: Booking, resources: map<string, Resource>) {
    && a.public == b.public
    && (Sees(c, a, resources) <==> Sees(c, b, resources))
    && (Sees(c, a, resources) ==> a.details == b.details)
  }

  predicate ListsAlikeFor(c: Caller, a: seq<Booking>, b: seq<Booking>, resources: map<string, Resource>) {
    |a| == |b| && forall i | 0 <= i < |a| :: AlikeFor(c, a[i], b[i], resources)
  }

  /** Details that are blank look the same whether they are withheld or empty. */
  predicate NothingToHide(c: Caller, a: Booking, b: Booking, resources: map<string, Resource>) {
    && a.public == b.public
    && (Sees(c, a, resources) ==> a.details == Blank)
    && (Sees(c, b, resources) ==> b.details == Blank)
  }

  lemma ProjectsAlikeIff(c: Caller, a: Booking, b: Booking, resources: map<string, Resource>)
    ensures Project(c, a, ResourceOf(a, resources)) == Project(c, b, ResourceOf(b, resources))
      <==> AlikeFor(c, a, b, resources) || NothingToHide(c, a, b, resources)
  {
    var pa, pb := Project(c, a, ResourceOf(a, resources)), Project(c, b, ResourceOf(b, resources));
    assert pa.public == a.public && pb.public == b.public;
    assert pa.details == if Sees(c, a, resources) then a.details else Blank;
    assert pb.details == if Sees(c, b, resources) then b.details else Blank;
  }

  /** What a viewer gets depends on nothing a viewer may not see: two lists that are alike for the viewer
      come out the same. */
  lemma HiddenDetailsDoNotShow(c: Caller, a: seq<Booking>, b: seq<Booking>, resources: map<string, Resource>)
    requires ListsAlikeFor(c, a, b, resources)
    ensures ProjectAll(c, a, resources) == ProjectAll(c, b, resources)
  {
    hide AlikeFor, Project, ResourceOf;
    forall i | 0 <= i < |a| ensures ProjectAll(c, a, resources)[i] == ProjectAll(c, b, resources)[i] {
      ProjectsAlikeIff(c, a[i], b[i], resources);
    }
  }

  /** In particular the owner, title, notes and links of a withheld booking can be anything else that leaves it
      withheld. */
  lemma WithheldCanBeAnything(c: Caller, bs: seq<Booking>, i: nat, other: Details, resources: map<string, Resource>)
    requires i < |bs| && !Sees(c, bs[i], resources) && (c.userId == "" || other.owner != c.userId)
    ensures ProjectAll(c, bs[i := bs[i].(details := other)], resources) == ProjectAll(c, bs, resources)
  {
    var b := bs[i].(details := other);
    assert ResourceOf(b, resources) == ResourceOf(bs[i], resources);
    assert AlikeFor(c, bs[i], b, resources);
    HiddenDetailsDoNotShow(c, bs[i := b], bs, resources);
  }

  /** Projecting what was projected changes nothing. */
  lemma ProjectingTwiceIsOnce(c: Caller, bs: seq<Booking>, resources: map<string, Resource>)
    ensures ProjectAll(c, ProjectAll(c, bs, resources), resources) == ProjectAll(c, bs, resources)
  {
    var once := ProjectAll(c, bs, resources);
    forall i | 0 <= i < |bs| ensures ProjectAll(c, once, resources)[i] == once[i] {
      var b := bs[i];
      var r := ResourceOf(b, resources);
      assert ResourceOf(once[i], resources) == r;
      assert CanSeeDetails(c, once[i], r) <==> CanSeeDetails(c, b, r);
    }
  }

  // ---- The audience ----

  /** More roles on a resource never take details away from a viewer; with the same name they take nothing away. */
  lemma MoreRolesSeeMore(c: Caller, b: Booking, r: Resource, more: Resource)
    requires (forall role | role in r.detailsVisibleToRole :: role in more.detailsVisibleToRole) && more.name == r.name
    ensures CanSeeDetails(c, b, r) ==> CanSeeDetails(c, b, more)
    ensures Project(c, b, more) == Project(c, b, r) || (Project(c, b, r).details == Blank && Project(c, b, more) == b.(resourceName := r.name))
  {
  }

  /** Adding one role lets in exactly the viewers of that role, and them only to bookings that are not private and
      have a status. */
  lemma OneMoreRoleIff(c: Caller, b: Booking, r: Resource, role: string)
    ensures CanSeeDetails(c, b, r.(detailsVisibleToRole := r.detailsVisibleToRole + [role]))
      <==> CanSeeDetails(c, b, r) || (c.role == role && b.public.status != "" && !b.public.private)
  {
  }

  /** The details of a private booking reach its owner and the System Admin, whatever the resource says. */
  lemma PrivateIsPrivate(c: Caller, b: Booking, r: Resource)
    requires b.public.private
    ensures Project(c, b, r).details == b.details
      <==> c.role == "System Admin" || (c.userId != "" && c.userId == b.details.owner) || b.details == Blank
  {
  }

  /** A booking is left whole for System Admins and its owner; one that has a status and is not private also for Security Admins,
      Room Admins, Secretaries and the roles its resource lists. Everybody else gets its public fields and no details. */
  lemma AudienceInFull(c: Caller, b: Booking, r: Resource)
    ensures Project(c, b, r)
      == if c.role == "System Admin" || (c.userId != "" && c.userId == b.details.owner)
            || (b.public.status != "" && !b.public.private
                && (c.role == "Security Admin" || c.role == "Room Admin" || c.role == "Secretary" || c.role in r.detailsVisibleToRole))
         then Booking(b.public, r.name, b.details)
         else Booking(b.public, r.name, Details("", "", "", "", "", None))
  {
  }

  /** Without a resource in the map a stranger sees the details of a booking that is not private exactly in one of the four roles,
      and nobody its resource's name. */
  lemma StrangersWithoutResource(c: Caller, b: Booking, resources: map<string, Resource>)
    requires b.public.resource !in resources && b.public.status != "" && !b.public.private && b.details.owner != c.userId
    ensures ProjectAll(c, [b], resources)
      == if c.role in {"System Admin", "Security Admin", "Room Admin", "Secretary"} then [Booking(b.public, "", b.details)]
         else [Booking(b.public, "", Details("", "", "", "", "", None))]
  {
  }
}
