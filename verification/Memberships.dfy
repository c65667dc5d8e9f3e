/** The membership caches of the person who is logged in: by conference, and by position in the list. */
module MembershipCoherence {
  datatype Membership = Membership(position: nat, conference: nat, lastTimeRead: nat)

  /** The server's view of the person who is logged in, 0 for nobody: the conferences in list order, when each was last
      read, and the current conference, 0 for none; and the memberships of all other persons, of which no message
      tells. */
  datatype World =
    World(person: nat, order: seq<nat>, lastRead: map<nat, nat>, current: nat, others: map<nat, seq<Membership>>)
  {
    ghost predicate Valid() {
      && (forall i :: 0 <= i < |order| ==> order[i] in lastRead)
      && (forall i, j :: 0 <= i < j < |order| ==> order[i] != order[j])
      && 0 !in lastRead
      && (person == 0 ==> order == [] && lastRead == map[])
    }

    function At(p: nat): Membership
      requires p < |order| && order[p] in lastRead
    {
      Membership(p, order[p], lastRead[order[p]])
    }

    /** What the server returns for n memberships from position first. */
    function Slice(first: nat, n: nat): (r: seq<Membership>)
      requires forall i :: 0 <= i < |order| ==> order[i] in lastRead
      ensures |r| == if |order| <= first then 0 else if |order| - first < n then |order| - first else n
      ensures forall i :: 0 <= i < |r| ==> r[i] == At(first + i)
    {
      var count := if |order| <= first then 0 else if |order| - first < n then |order| - first else n;
      seq(count, i requires 0 <= i < count => At(first + i))
    }

    /** The memberships of another person. */
    function Of(pers: nat): seq<Membership> {
      if pers in others then others[pers] else []
    }
  }

  datatype Message = LeaveConf(confNo: nat) | NewMembership(confNo: nat) | OtherMessage

  datatype Caches = Caches(byPosition: map<nat, Membership>, byConference: map<nat, Membership>)

  const EMPTY := Caches(map[], map[])

  /** The handlers _cpah_*. */
  function Handle(c: Caches, msg: Message): Caches {
    match msg
    case LeaveConf(conf) => Caches(map[], c.byConference - {conf})
    case NewMembership(_) => Caches(map[], c.byConference)
    case OtherMessage => c
  }

  /** Leaving forgets the membership and, like joining, all positions; nothing else is forgotten or changed. */
  lemma ForgetsExactly(c: Caches, msg: Message, n: nat)
    ensures n in Handle(c, msg).byConference <==> n in c.byConference && msg != LeaveConf(n)
    ensures n in Handle(c, msg).byPosition <==> n in c.byPosition && !msg.LeaveConf? && !msg.NewMembership?
    ensures n in Handle(c, msg).byConference ==> Handle(c, msg).byConference[n] == c.byConference[n]
    ensures n in Handle(c, msg).byPosition ==> Handle(c, msg).byPosition[n] == c.byPosition[n]
  {
  }

  /** The list changes only with leave and new-membership messages, and when a conference that is not left was last read
      not at all.  Any message may find the current conference gone, and the lists of other persons changed. */
  ghost predicate Announces(msg: Message, w: World, w': World) {
    && w.Valid() && w'.Valid() && w'.person == w.person
    && (msg.OtherMessage? ==> w'.order == w.order)
    && (forall k :: k in w.lastRead && msg != LeaveConf(k) ==> k in w'.lastRead && w'.lastRead[k] == w.lastRead[k])
    && (w'.current == w.current || w'.current == 0)
  }

  /** A cached position holds the membership that is there. */
  ghost predicate PositionAgrees(c: Caches, w: World, stale: set<nat>, p: nat) {
    p in c.byPosition ==>
      p < |w.order| && w.order[p] in w.lastRead && c.byPosition[p].position == p &&
      c.byPosition[p].conference == w.order[p] &&
      (w.order[p] in stale || c.byPosition[p].lastTimeRead == w.lastRead[w.order[p]])
  }

  /** A cached membership tells when its conference was last read; its position may be out of date. */
  ghost predicate ConferenceAgrees(c: Caches, w: World, stale: set<nat>, k: nat) {
    k in c.byConference ==>
      k in w.lastRead && c.byConference[k].conference == k &&
      (k in stale || c.byConference[k].lastTimeRead == w.lastRead[k])
  }

  /** The memberships of the conferences in `stale` are exempt. */
  ghost predicate CoherentExcept(c: Caches, w: World, stale: set<nat>) {
    && (forall p: nat :: PositionAgrees(c, w, stale, p))
    && (forall k: nat :: ConferenceAgrees(c, w, stale, k))
  }

  ghost predicate Coherent(c: Caches, w: World) {
    CoherentExcept(c, w, {})
  }

  lemma HandlersKeepCoherence(c: Caches, w: World, msg: Message, w': World)
    requires Coherent(c, w) && Announces(msg, w, w')
    ensures Coherent(Handle(c, msg), w')
  {
    var c' := Handle(c, msg);
    forall p: nat ensures PositionAgrees(c', w', {}, p) {
      assert PositionAgrees(c, w, {}, p);
    }
    forall k: nat ensures ConferenceAgrees(c', w', {}, k) {
      assert ConferenceAgrees(c, w, {}, k);
    }
  }

  // ---------- Requests ----------

  datatype PersonRequest =
    | ReqMemberships
    | ReqMembership(confNo: nat)
    | ReqChangeConference(confNo: nat)
    | ReqLogout
    | ReqLogin(persNo: nat)

  /** What a request does on the server besides answering. */
  ghost predicate Effect(req: PersonRequest, w: World, w': World) {
    && w.Valid() && w'.Valid()
    && match req
       case ReqMemberships => Announces(OtherMessage, w, w')
       case ReqMembership(_) => Announces(OtherMessage, w, w')
       case ReqChangeConference(conf) =>
         && w'.person == w.person && w'.order == w.order && w'.current == conf
         && (forall k :: k in w.lastRead ==> k in w'.lastRead && (k == w.current || w'.lastRead[k] == w.lastRead[k]))
       case ReqLogout => w'.person == 0 && w'.current == 0
       case ReqLogin(pers) => w'.person == pers && w'.current == 0
  }

  /** Changing conference makes stale only what it is about to invalidate: the membership of the previous one. */
  lemma ChangingStalesThePrevious(c: Caches, w: World, conf: nat, w': World, previous: nat)
    requires Coherent(c, w) && Effect(ReqChangeConference(conf), w, w')
    requires w.current == previous || w.current == 0
    ensures CoherentExcept(c, w', {previous})
    ensures previous == 0 ==> Coherent(c, w')
  {
    forall p: nat ensures PositionAgrees(c, w', {previous}, p) && (previous == 0 ==> PositionAgrees(c, w', {}, p)) {
      assert PositionAgrees(c, w, {}, p);
    }
    forall k: nat ensures ConferenceAgrees(c, w', {previous}, k) && (previous == 0 ==> ConferenceAgrees(c, w', {}, k)) {
      assert ConferenceAgrees(c, w, {}, k);
    }
  }

  /** _invalidate_membership removes one position; since conferences are not listed twice, that is enough. */
  lemma OnePositionIsEnough(c: Caches, w: World, conf: nat, found: nat)
    requires w.Valid() && CoherentExcept(c, w, {conf}) && conf !in c.byConference
    requires found in c.byPosition && c.byPosition[found].conference == conf
    ensures var c' := c.(byPosition := c.byPosition - {found});
            Coherent(c', w) && forall p :: p in c'.byPosition ==> c'.byPosition[p].conference != conf
  {
    var c' := c.(byPosition := c.byPosition - {found});
    assert PositionAgrees(c, w, {conf}, found);
    forall p: nat ensures PositionAgrees(c', w, {}, p) && (p in c'.byPosition ==> c'.byPosition[p].conference != conf) {
      assert PositionAgrees(c, w, {conf}, p);
    }
    forall k: nat ensures ConferenceAgrees(c', w, {}, k) {
      assert ConferenceAgrees(c, w, {conf}, k);
    }
  }

  lemma NothingToRemove(c: Caches, w: World, conf: nat)
    requires CoherentExcept(c, w, {conf}) && conf !in c.byConference
    requires forall p :: p in c.byPosition ==> c.byPosition[p].conference != conf
    ensures Coherent(c, w)
  {
    forall p: nat ensures PositionAgrees(c, w, {}, p) {
      assert PositionAgrees(c, w, {conf}, p);
    }
    forall k: nat ensures ConferenceAgrees(c, w, {}, k) {
      assert ConferenceAgrees(c, w, {conf}, k);
    }
  }

  /** Caching what is at a position, or what is known of a conference, keeps the caches coherent. */
  lemma PlacedAt(c: Caches, w: World, p: nat)
    requires w.Valid() && Coherent(c, w) && p < |w.order|
    ensures Coherent(c.(byPosition := c.byPosition[p := w.At(p)]), w)
    ensures Coherent(c.(byConference := c.byConference[w.order[p] := w.At(p)]), w)
  {
    var c1 := c.(byPosition := c.byPosition[p := w.At(p)]);
    var c2 := c.(byConference := c.byConference[w.order[p] := w.At(p)]);
    forall k: nat
      ensures PositionAgrees(c1, w, {}, k) && ConferenceAgrees(c1, w, {}, k)
      ensures PositionAgrees(c2, w, {}, k) && ConferenceAgrees(c2, w, {}, k)
    {
      assert PositionAgrees(c, w, {}, k) && ConferenceAgrees(c, w, {}, k);
    }
  }

  /** `m` is what is at the position of `conf`. */
  ghost predicate IsMembership(w: World, conf: nat, m: Membership)
    requires w.Valid()
  {
    m.position < |w.order| && w.order[m.position] == conf && m == w.At(m.position)
  }

  ghost predicate InPlace(w: World, m: Membership) {
    m.position < |w.order| && w.order[m.position] == m.conference
  }

  /** What is cached for a conference is the server's membership if and only if the conference still is at the position
      it says. */
  lemma HitIsMembership(c: Caches, w: World, conf: nat)
    requires w.Valid() && Coherent(c, w) && conf in c.byConference
    ensures IsMembership(w, conf, c.byConference[conf]) <==> InPlace(w, c.byConference[conf])
  {
    assert ConferenceAgrees(c, w, {}, conf);
  }

  /** It need not be: the handler of new-membership leaves the cache by conference alone, and a new conference in front
      moves the others. */
  lemma JoiningMoves(c: Caches, w: World, w': World, conf: nat)
    requires w == World(1, [conf], map[conf := 0], 0, map[]) && conf > 1
    requires w' == World(1, [1, conf], map[1 := 0, conf := 0], 0, map[])
    requires c == Caches(map[], map[conf := w.At(0)])
    ensures w.Valid() && Coherent(c, w) && Announces(NewMembership(1), w, w')
    ensures IsMembership(w, conf, c.byConference[conf])
    ensures conf in Handle(c, NewMembership(1)).byConference
    ensures !IsMembership(w', conf, Handle(c, NewMembership(1)).byConference[conf])
  {
    forall k: nat ensures PositionAgrees(c, w, {}, k) && ConferenceAgrees(c, w, {}, k) {
    }
  }

  /** The memberships at the positions from first on, when all of them are cached. */
  ghost predicate AllCached(c: Caches, first: nat, n: nat) {
    forall p :: first <= p < first + n ==> p in c.byPosition
  }

  /** A hit is the slice that the server would return. */
  lemma HitsAreSlices(c: Caches, w: World, first: nat, n: nat, hit: seq<Membership>)
    requires w.Valid() && Coherent(c, w) && AllCached(c, first, n)
    requires |hit| == n && forall i :: 0 <= i < n ==> first + i in c.byPosition && hit[i] == c.byPosition[first + i]
    ensures hit == w.Slice(first, n)
  {
    if n > 0 {
      assert first + (n - 1) in c.byPosition && PositionAgrees(c, w, {}, first + (n - 1));
    }
    forall i | 0 <= i < n ensures hit[i] == w.At(first + i) {
      assert PositionAgrees(c, w, {}, first + i);
    }
  }

  /** Two of the three paths of get_memberships ask for position 0 instead of `first`: what they get is the slice asked
      for if and only if that makes no difference. */
  lemma FirstIsIgnored(w: World, first: nat, n: nat)
    requires w.Valid()
    ensures w.Slice(0, n) == w.Slice(first, n) <==> first == 0 || n == 0 || w.order == []
  {
    if first != 0 && n != 0 && w.order != [] {
      assert w.Slice(0, n)[0].position == 0;
      assert w.Slice(first, n) != [] ==> w.Slice(first, n)[0].position == first;
    }
  }

  /** While nobody is logged in the caches are empty. */
  lemma NobodyIsCached(c: Caches, w: World)
    requires w.Valid() && w.person == 0 && Coherent(c, w)
    ensures c == EMPTY
  {
    forall p: nat ensures p !in c.byPosition && p !in c.byConference {
      assert PositionAgrees(c, w, {}, p) && ConferenceAgrees(c, w, {}, p);
    }
    assert c.byPosition == map[] && c.byConference == map[];
  }

  /** Logging in empties no cache, so it keeps them coherent, whoever logs in and whatever conferences that person has,
      if and only if they are empty: a second login without a logout is not safe. */
  lemma LoginNeedsEmptyCaches(c: Caches, w: World, pers: nat)
    requires w.Valid()
    ensures (forall w' :: Effect(ReqLogin(pers), w, w') ==> Coherent(c, w')) <==> c == EMPTY
  {
    if forall w' :: Effect(ReqLogin(pers), w, w') ==> Coherent(c, w') {
      var nothing := World(pers, [], map[], 0, map[]);
      assert Effect(ReqLogin(pers), w, nothing);
      forall p: nat ensures p !in c.byPosition && p !in c.byConference {
        assert PositionAgrees(c, nothing, {}, p) && ConferenceAgrees(c, nothing, {}, p);
      }
      assert c.byPosition == map[] && c.byConference == map[];
    }
  }
}

/** CachingPersonClient */
module PersonClients {
  import opened MembershipCoherence
  import opened Options
  import opened Streams

  type ServerEvent = Event<Message, World>

  type ServerLink = Link<Message, World>

  // ---------- Waiting for a reply ----------

  /** The caches when the messages in front of the next reply have been handled. */
  function Handled(c: Caches, events: seq<ServerEvent>): Caches
    decreases |events|
  {
    if events == [] || events[0].Reply? then c else Handled(Handle(c, events[0].msg), events[1..])
  }

  /** The stream up to the reply to `req`; an error reply means that nothing was done. */
  ghost predicate Serves(req: PersonRequest, w: World, events: seq<ServerEvent>)
    decreases |events|
  {
    events == [] ||
    match events[0]
    case Notice(msg, after) => Announces(msg, w, after) && Serves(req, after, events[1..])
    case Reply(ok, after) => if ok then Effect(req, w, after) else Announces(OtherMessage, w, after)
  }

  /** `w'` is what the server may have come to by notices alone. */
  ghost predicate Since(w: World, w': World) {
    w'.Valid() && w'.person == w.person && (w'.current == w.current || w'.current == 0)
  }

  /** While a request waits, the caches follow the server up to what the request itself changes; after an error, and
      after a request that only reads, they have caught up. */
  lemma {:induction false} WaitingIsCoherent(c: Caches, w: World, req: PersonRequest, events: seq<ServerEvent>)
    requires w.Valid() && Coherent(c, w) && Serves(req, w, events)
    ensures Coherent(Handled(c, events), WorldBefore(w, events)) && Since(w, WorldBefore(w, events))
    ensures Granted(events) ==> Effect(req, WorldBefore(w, events), WorldThen(w, events))
    ensures !Granted(events) || req.ReqMemberships? || req.ReqMembership? ==>
              Coherent(Handled(c, events), WorldThen(w, events)) && Since(w, WorldThen(w, events))
    decreases |events|
  {
    if events != [] {
      match events[0]
      case Notice(msg, after) =>
        HandlersKeepCoherence(c, w, msg, after);
        WaitingIsCoherent(Handle(c, msg), after, req, events[1..]);
      case Reply(ok, after) =>
        if !ok || req.ReqMemberships? || req.ReqMembership? {
          HandlersKeepCoherence(c, w, OtherMessage, after);
        }
    }
  }

  /** The cached positions of all conferences but one. */
  function Without(byPosition: map<nat, Membership>, conf: nat): map<nat, Membership> {
    map p | p in byPosition && byPosition[p].conference != conf :: byPosition[p]
  }

  /** The fetched memberships, cached at the positions they carry. */
  function Placed(byPosition: map<nat, Membership>, fetched: seq<Membership>): map<nat, Membership> {
    if fetched == [] then byPosition
    else
      var n := |fetched| - 1;
      Placed(byPosition, fetched[..n])[fetched[n].position := fetched[n]]
  }

  /** What was fetched last for a position is cached there; positions that were not fetched stay as they are. */
  lemma {:induction false} PlacedExactly(byPosition: map<nat, Membership>, fetched: seq<Membership>, p: nat)
    ensures var placed := Placed(byPosition, fetched);
            if exists i :: 0 <= i < |fetched| && fetched[i].position == p
            then p in placed && exists i :: 0 <= i < |fetched| && fetched[i] == placed[p] && placed[p].position == p &&
                                            forall j :: i < j < |fetched| ==> fetched[j].position != p
            else (p in placed <==> p in byPosition) && (p in placed ==> placed[p] == byPosition[p])
    decreases |fetched|
  {
    if fetched != [] {
      var n := |fetched| - 1;
      PlacedExactly(byPosition, fetched[..n], p);
      assert forall i :: 0 <= i < n ==> fetched[..n][i] == fetched[i];
      assert fetched[n] == fetched[n];
    }
  }

  lemma {:induction false} PlacedIsCoherent(c: Caches, w: World, first: nat, fetched: seq<Membership>)
    requires w.Valid() && Coherent(c, w)
    requires fetched == [] || first + |fetched| <= |w.order|
    requires forall i :: 0 <= i < |fetched| ==> fetched[i] == w.At(first + i)
    ensures Coherent(c.(byPosition := Placed(c.byPosition, fetched)), w)
    ensures forall p: nat :: first <= p < first + |fetched| ==> p in Placed(c.byPosition, fetched)
    decreases |fetched|
  {
    if fetched == [] {
      assert c.(byPosition := c.byPosition) == c;
    } else {
      var n := |fetched| - 1;
      assert fetched[n] == w.At(first + n);
      assert forall i :: 0 <= i < n ==> fetched[..n][i] == fetched[i];
      PlacedIsCoherent(c, w, first, fetched[..n]);
      PlacedAt(c.(byPosition := Placed(c.byPosition, fetched[..n])), w, first + n);
    }
  }

  function FirstOf(n: nat, list: seq<Membership>): (r: seq<Membership>)
    ensures r <= list && (|r| == n || (|r| < n && r == list))
  {
    if |list| <= n then list else list[..n]
  }

  class PersonClient {
    const link: ServerLink
    var persNo: nat
    var currentConferenceNo: nat
    var memberships: map<nat, Membership>
    var membershipsByPosition: map<nat, Membership>

    constructor (link: ServerLink)
      requires link.world.Valid() && link.world.person == 0 && link.world.current == 0
      ensures this.link == link && Valid() && persNo == 0
    {
      this.link := link;
      persNo, currentConferenceNo := 0, 0;
      memberships, membershipsByPosition := map[], map[];
    }

    ghost function Now(): Caches
      reads this
    {
      Caches(membershipsByPosition, memberships)
    }

    /** The caches are coherent with what was read last, and the client knows who is logged in and, if there is one,
        the current conference. */
    ghost predicate Valid()
      reads this, link
    {
      && link.world.Valid() && Coherent(Now(), link.world)
      && persNo == link.world.person
      && (link.world.current == currentConferenceNo || link.world.current == 0)
    }

    method HandleAsyncMessage(msg: Message)
      modifies this`memberships, this`membershipsByPosition
      ensures Now() == Handle(old(Now()), msg)
    {
      match msg {
        case LeaveConf(conf) =>
          memberships := memberships - {conf};
          membershipsByPosition := map[];
        case NewMembership(_) =>
          membershipsByPosition := map[];
        case OtherMessage =>
      }
    }

    /** request: the messages in front of the reply are handled.  What the server makes of `req` is in the stream. */
    method Request(ghost req: PersonRequest) returns (ok: bool)
      modifies this`memberships, this`membershipsByPosition, link
      ensures ok == Granted(old(link.events)) && link.events == Remaining(old(link.events))
      ensures link.world == WorldThen(old(link.world), old(link.events))
      ensures Now() == Handled(old(Now()), old(link.events))
    {
      ghost var events, world, caches := link.events, link.world, Now();
      while |link.events| > 0
        invariant Granted(events) == Granted(link.events) && Remaining(events) == Remaining(link.events)
        invariant WorldThen(world, events) == WorldThen(link.world, link.events)
        invariant Handled(caches, events) == Handled(Now(), link.events)
        decreases |link.events|
      {
        var event := link.events[0];
        link.events := link.events[1..];
        link.world := event.after;
        match event {
          case Notice(msg, _) => HandleAsyncMessage(msg);
          case Reply(replyOk, _) => return replyOk;
        }
      }
      return false;
    }

    method Login(pers: nat) returns (ok: bool)
      requires Valid() && Serves(ReqLogin(pers), link.world, link.events)
      modifies this, link
      ensures ok == Granted(old(link.events)) && Now() == Handled(old(Now()), old(link.events))
      ensures persNo == if ok then pers else old(persNo)
      ensures currentConferenceNo == old(currentConferenceNo)
      ensures old(persNo) == 0 || !ok ==> Valid()
    {
      WaitingIsCoherent(Now(), link.world, ReqLogin(pers), link.events);
      ghost var before := WorldBefore(link.world, link.events);
      ok := Request(ReqLogin(pers));
      if ok {
        persNo := pers;
        if before.person == 0 {
          NobodyIsCached(Now(), before);
        }
      }
    }

    method Logout() returns (ok: bool)
      requires Valid() && Serves(ReqLogout, link.world, link.events)
      modifies this, link
      ensures Valid() && ok == Granted(old(link.events))
      ensures Now() == if ok then EMPTY else Handled(old(Now()), old(link.events))
      ensures persNo == if ok then 0 else old(persNo)
      ensures currentConferenceNo == old(currentConferenceNo)
    {
      WaitingIsCoherent(Now(), link.world, ReqLogout, link.events);
      ok := Request(ReqLogout);
      if ok {
        persNo := 0;
        membershipsByPosition := map[];
        memberships := map[];
      }
    }

    /** The membership of the previous conference, whose last-time-read the server updates, is forgotten; no other. */
    method ChangeConference(conf: nat) returns (ok: bool)
      requires Valid() && Serves(ReqChangeConference(conf), link.world, link.events)
      modifies this, link
      ensures Valid() && persNo == old(persNo) && ok == Granted(old(link.events))
      ensures currentConferenceNo == if ok then conf else old(currentConferenceNo)
      ensures var c, prev := Handled(old(Now()), old(link.events)), old(currentConferenceNo);
              Now() == if ok && prev != 0 then Caches(Without(c.byPosition, prev), c.byConference - {prev}) else c
    {
      WaitingIsCoherent(Now(), link.world, ReqChangeConference(conf), link.events);
      ghost var before := WorldBefore(link.world, link.events);
      var prevConfNo := currentConferenceNo;
      ok := Request(ReqChangeConference(conf));
      if ok {
        ChangingStalesThePrevious(Now(), before, conf, link.world, prevConfNo);
        currentConferenceNo := conf;
        if prevConfNo != 0 {
          InvalidateMembership(prevConfNo);
        }
      }
    }

    /** _invalidate_membership: the search stops at the first position found. */
    method InvalidateMembership(conf: nat)
      requires link.world.Valid() && CoherentExcept(Now(), link.world, {conf})
      modifies this`memberships, this`membershipsByPosition
      ensures Coherent(Now(), link.world)
      ensures memberships == old(memberships) - {conf}
      ensures membershipsByPosition == Without(old(membershipsByPosition), conf)
      ensures forall p :: p in membershipsByPosition <==>
                p in old(membershipsByPosition) && old(membershipsByPosition)[p].conference != conf
      ensures forall p :: p in membershipsByPosition ==> membershipsByPosition[p] == old(membershipsByPosition)[p]
    {
      ghost var start := Now();
      memberships := memberships - {conf};
      assert CoherentExcept(Now(), link.world, {conf}) by {
        assert forall p: nat ::
            PositionAgrees(start, link.world, {conf}, p) ==> PositionAgrees(Now(), link.world, {conf}, p);
        assert forall p: nat ::
            ConferenceAgrees(start, link.world, {conf}, p) ==> ConferenceAgrees(Now(), link.world, {conf}, p);
      }
      var foundAt: Option<nat> := None;
      var positions := membershipsByPosition.Keys;
      ghost var seen: set<nat> := {};
      while positions != {} && foundAt.None?
        invariant positions + seen == membershipsByPosition.Keys
        invariant forall p :: p in seen ==> foundAt == Some(p) || membershipsByPosition[p].conference != conf
        invariant foundAt.Some? ==>
                    foundAt.value in membershipsByPosition && membershipsByPosition[foundAt.value].conference == conf
        decreases positions
      {
        var pos :| pos in positions;
        if membershipsByPosition[pos].conference == conf {
          foundAt := Some(pos);
        }
        positions := positions - {pos};
        seen := seen + {pos};
      }
      if foundAt.Some? {
        OnePositionIsEnough(Now(), link.world, conf, foundAt.value);
        membershipsByPosition := membershipsByPosition - {foundAt.value};
      } else {
        assert forall p :: p in membershipsByPosition ==> p in seen;
        NothingToRemove(Now(), link.world, conf);
      }
    }

    /** _get_cached_memberships_by_position: all of them, or None. */
    method GetCached(first: nat, n: nat) returns (r: Option<seq<Membership>>)
      ensures r.Some? <==> AllCached(Now(), first, n)
      ensures r.Some? ==>
                |r.value| == n &&
                forall i :: 0 <= i < n ==> r.value[i] == membershipsByPosition[first + i]
    {
      var found: seq<Membership> := [];
      for pos := first to first + n
        invariant |found| == pos - first
        invariant forall p :: first <= p < pos ==> p in membershipsByPosition
        invariant forall i :: 0 <= i < |found| ==> found[i] == membershipsByPosition[first + i]
      {
        if pos !in membershipsByPosition {
          return None;
        }
        found := found + [membershipsByPosition[pos]];
      }
      return Some(found);
    }

    /** get_memberships.  Without read ranges, for the person who is logged in, the result is the slice of the
        server's list that was asked for, cached or not; otherwise the list is read from its start.  The list of another
        person is the one the server has when it replies. */
    method GetMemberships(pers: nat, first: nat, n: nat, wantReadRanges: bool) returns (r: Option<seq<Membership>>)
      requires Valid() && Serves(ReqMemberships, link.world, link.events)
      modifies this`memberships, this`membershipsByPosition, link
      ensures Valid()
      ensures var cacheable := pers == persNo && !wantReadRanges;
              if cacheable && AllCached(old(Now()), first, n)
              then r.Some? && Now() == old(Now()) && link.events == old(link.events)
              else && (r.Some? <==> Granted(old(link.events)))
                   && var c := Handled(old(Now()), old(link.events));
                      Now() == if cacheable && r.Some? then c.(byPosition := Placed(c.byPosition, r.value)) else c
      ensures r.Some? && pers == persNo ==> r.value == link.world.Slice(if wantReadRanges then 0 else first, n)
      ensures r.Some? && pers != persNo ==> r.value == FirstOf(n, link.world.Of(pers))
    {
      WaitingIsCoherent(Now(), link.world, ReqMemberships, link.events);
      if wantReadRanges || pers != persNo {
        var ok := Request(ReqMemberships);
        if !ok {
          return None;
        }
        return Some(if pers == persNo then link.world.Slice(0, n) else FirstOf(n, link.world.Of(pers)));
      }
      r := GetCached(first, n);
      if r.Some? {
        HitsAreSlices(Now(), link.world, first, n, r.value);
        return;
      }
      var ok := Request(ReqMemberships);
      if !ok {
        return None;
      }
      var fetched := link.world.Slice(first, n);
      PlacedIsCoherent(Now(), link.world, first, fetched);
      UpdateCached(fetched);
      return Some(fetched);
    }

    /** _update_cached_memberships_by_position */
    method UpdateCached(fetched: seq<Membership>)
      modifies this`membershipsByPosition
      ensures membershipsByPosition == Placed(old(membershipsByPosition), fetched)
    {
      for i := 0 to |fetched|
        invariant membershipsByPosition == Placed(old(membershipsByPosition), fetched[..i])
      {
        assert fetched[..i + 1][..i] == fetched[..i];
        var m := fetched[i];
        membershipsByPosition := membershipsByPosition[m.position := m];
      }
      assert fetched[..|fetched|] == fetched;
    }

    /** get_membership: without read ranges, for the person who is logged in, through the cache; otherwise the server is
        asked and nothing is cached. */
    method GetMembership(pers: nat, conf: nat, wantReadRanges: bool) returns (r: Option<Membership>)
      requires Valid() && Serves(ReqMembership(conf), link.world, link.events)
      modifies this`memberships, this`membershipsByPosition, link
      ensures Valid()
      ensures wantReadRanges || pers != persNo ==> Now() == Handled(old(Now()), old(link.events))
      ensures wantReadRanges && pers == persNo ==>
                && (r.Some? <==> Granted(old(link.events)) && conf in link.world.order)
                && (r.Some? ==> IsMembership(link.world, conf, r.value))
      ensures pers != persNo ==>
                && (r.Some? <==>
                    Granted(old(link.events)) && exists m :: m in link.world.Of(pers) && m.conference == conf)
                && (r.Some? ==> r.value in link.world.Of(pers) && r.value.conference == conf)
      ensures !wantReadRanges && pers == persNo && conf in old(memberships) ==>
                r == Some(old(memberships)[conf]) && Now() == old(Now()) && link.events == old(link.events)
      ensures !wantReadRanges && pers == persNo && conf !in old(memberships) ==>
                && (r.Some? <==> Granted(old(link.events)) && conf in link.world.order)
                && (r.Some? ==> IsMembership(link.world, conf, r.value))
                && var c := Handled(old(Now()), old(link.events));
                   Now() == if r.Some? then c.(byConference := c.byConference[conf := r.value]) else c
      ensures r.Some? && pers == persNo ==>
                conf in link.world.lastRead && r.value.conference == conf &&
                r.value.lastTimeRead == link.world.lastRead[conf] &&
                (IsMembership(link.world, conf, r.value) <==> InPlace(link.world, r.value))
    {
      assert ConferenceAgrees(Now(), link.world, {}, conf);
      if !wantReadRanges && pers == persNo && conf in memberships {
        HitIsMembership(Now(), link.world, conf);
        return Some(memberships[conf]);
      }
      WaitingIsCoherent(Now(), link.world, ReqMembership(conf), link.events);
      var ok := Request(ReqMembership(conf));
      if !ok {
        return None;
      }
      if pers != persNo {
        r := LookupIn(link.world.Of(pers), conf);
        return;
      }
      r := Lookup(link.world, conf);
      if r.Some? && !wantReadRanges {
        PlacedAt(Now(), link.world, r.value.position);
        memberships := memberships[conf := r.value];
      }
    }

    /** What the server answers to query-read-texts. */
    static method Lookup(w: World, conf: nat) returns (r: Option<Membership>)
      requires w.Valid()
      ensures r.Some? <==> conf in w.order
      ensures r.Some? ==> IsMembership(w, conf, r.value)
    {
      if p :| 0 <= p < |w.order| && w.order[p] == conf {
        return Some(w.At(p));
      }
      return None;
    }

    static method LookupIn(list: seq<Membership>, conf: nat) returns (r: Option<Membership>)
      ensures r.Some? <==> exists m :: m in list && m.conference == conf
      ensures r.Some? ==> r.value in list && r.value.conference == conf
    {
      if m :| m in list && m.conference == conf {
        return Some(m);
      }
      return None;
    }
  }
}
