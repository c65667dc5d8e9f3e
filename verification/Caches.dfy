/** The caches of the blocking client against the records they copy. */
module CacheCoherence {
  /** Of each record the fields that the handlers' comments name, and the rest in one field. */
  datatype UConference = UConference(name: nat, highestLocalNo: nat, other: nat)

  datatype Conference = Conference(name: nat, noOfMembers: nat, noOfTexts: nat, other: nat)

  datatype TextStat = TextStat(recipients: set<nat>, commentsIn: set<nat>, noOfMarks: nat, other: nat)

  /** The server's records as of some point of its message stream; `gone` are the deleted texts. */
  datatype World = World(
    uconferences: map<nat, UConference>,
    conferences: map<nat, Conference>,
    texts: map<nat, TextStat>,
    gone: set<nat>)

  datatype Message =
    | NewName(confNo: nat)
    | LeaveConf(confNo: nat)
    | DeletedText(textNo: nat, recipients: seq<nat>, commentTos: seq<nat>)
    | NewText(textNo: nat, recipients: seq<nat>, commentTos: seq<nat>)
    | NewRecipient(textNo: nat, confNo: nat)
    | SubRecipient(textNo: nat, confNo: nat)
    | NewMembership(confNo: nat)
    | OtherMessage

  datatype Caches = Caches(
    uconferences: map<nat, UConference>,
    conferences: map<nat, Conference>,
    texts: map<nat, TextStat>)

  function Elements(nos: seq<nat>): set<nat> {
    set n | n in nos
  }

  lemma ElementsSnoc(nos: seq<nat>, i: nat)
    requires i < |nos|
    ensures Elements(nos[..i + 1]) == Elements(nos[..i]) + {nos[i]}
  {
    assert nos[..i + 1] == nos[..i] + [nos[i]];
  }

  /** The handlers _cah_*. */
  function Handle(c: Caches, msg: Message): Caches {
    match msg
    case NewName(conf) => c.(uconferences := c.uconferences - {conf}, conferences := c.conferences - {conf})
    case LeaveConf(conf) => c.(conferences := c.conferences - {conf})
    case DeletedText(_, recipients, _) => c.(conferences := c.conferences - Elements(recipients))
    case NewText(_, recipients, commentTos) =>
      c.(conferences := c.conferences - Elements(recipients),
         uconferences := c.uconferences - Elements(recipients),
         texts := c.texts - Elements(commentTos))
    case NewRecipient(text, conf) =>
      c.(conferences := c.conferences - {conf}, uconferences := c.uconferences - {conf}, texts := c.texts - {text})
    case SubRecipient(text, conf) => c.(conferences := c.conferences - {conf}, texts := c.texts - {text})
    case NewMembership(conf) => c.(conferences := c.conferences - {conf})
    case OtherMessage => c
  }

  /** A message forgets exactly the entries its handlers name, and leaves the others as they are. */
  lemma ForgetsExactly(c: Caches, msg: Message, n: nat)
    ensures n in Handle(c, msg).uconferences <==>
            && n in c.uconferences
            && msg != NewName(n)
            && !(msg.NewText? && n in msg.recipients)
            && !(msg.NewRecipient? && n == msg.confNo)
    ensures n in Handle(c, msg).conferences <==>
            && n in c.conferences
            && msg != NewName(n) && msg != LeaveConf(n) && msg != NewMembership(n)
            && !((msg.NewText? || msg.DeletedText?) && n in msg.recipients)
            && !((msg.NewRecipient? || msg.SubRecipient?) && n == msg.confNo)
    ensures n in Handle(c, msg).texts <==>
            && n in c.texts
            && !(msg.NewText? && n in msg.commentTos)
            && !((msg.NewRecipient? || msg.SubRecipient?) && n == msg.textNo)
    ensures n in Handle(c, msg).uconferences ==> Handle(c, msg).uconferences[n] == c.uconferences[n]
    ensures n in Handle(c, msg).conferences ==> Handle(c, msg).conferences[n] == c.conferences[n]
    ensures n in Handle(c, msg).texts ==> Handle(c, msg).texts[n] == c.texts[n]
  {
    assert msg.NewText? || msg.DeletedText? ==> (n in Elements(msg.recipients) <==> n in msg.recipients);
    assert msg.NewText? ==> (n in Elements(msg.commentTos) <==> n in msg.commentTos);
  }

  // ---------- What a message announces ----------

  predicate Renames(msg: Message, conf: nat) {
    msg == NewName(conf)
  }

  predicate ChangesMembers(msg: Message, conf: nat) {
    msg == LeaveConf(conf) || msg == NewMembership(conf)
  }

  /** A text was added to the conference, so its highest local number grows. */
  predicate AddsText(msg: Message, conf: nat) {
    (msg.NewText? && conf in msg.recipients) || (msg.NewRecipient? && conf == msg.confNo)
  }

  predicate RemovesText(msg: Message, conf: nat) {
    (msg.DeletedText? && conf in msg.recipients) || (msg.SubRecipient? && conf == msg.confNo)
  }

  predicate ChangesRecipients(msg: Message, text: nat) {
    (msg.NewRecipient? || msg.SubRecipient?) && text == msg.textNo
  }

  predicate Comments(msg: Message, text: nat) {
    msg.NewText? && text in msg.commentTos
  }

  /** From w to w' a named field of the records numbered n changed only if `msg` says so; the comment lists of the texts
      in `excused` may have changed besides.  Conferences stay; texts go only when announced, and the number of a
      deleted text is not used again. */
  ghost predicate AnnouncedAt(msg: Message, w: World, w': World, excused: set<nat>, n: nat) {
    && (n in w.uconferences ==>
          && n in w'.uconferences
          && (Renames(msg, n) || w'.uconferences[n].name == w.uconferences[n].name)
          && (AddsText(msg, n) || w'.uconferences[n].highestLocalNo == w.uconferences[n].highestLocalNo))
    && (n in w.conferences ==>
          && n in w'.conferences
          && (Renames(msg, n) || w'.conferences[n].name == w.conferences[n].name)
          && (ChangesMembers(msg, n) || w'.conferences[n].noOfMembers == w.conferences[n].noOfMembers)
          && (AddsText(msg, n) || RemovesText(msg, n) || w'.conferences[n].noOfTexts == w.conferences[n].noOfTexts))
    && (n in w.texts && n in w'.texts ==>
          && (ChangesRecipients(msg, n) || w'.texts[n].recipients == w.texts[n].recipients)
          && (n in excused || Comments(msg, n) || w'.texts[n].commentsIn == w.texts[n].commentsIn)
          && w'.texts[n].noOfMarks == w.texts[n].noOfMarks)
    && (n in w.texts && n !in w'.texts ==> msg.DeletedText? && msg.textNo == n && n in w'.gone)
    && (n in w.gone ==> n in w'.gone && n !in w'.texts)
  }

  ghost predicate AnnouncesExcept(msg: Message, w: World, w': World, excused: set<nat>) {
    forall n: nat :: AnnouncedAt(msg, w, w', excused, n)
  }

  ghost predicate Announces(msg: Message, w: World, w': World) {
    AnnouncesExcept(msg, w, w', {})
  }

  // ---------- Coherence ----------

  predicate SameUConference(a: UConference, b: UConference) {
    a.name == b.name && a.highestLocalNo == b.highestLocalNo
  }

  predicate SameConference(a: Conference, b: Conference) {
    a.name == b.name && a.noOfMembers == b.noOfMembers && a.noOfTexts == b.noOfTexts
  }

  /** The named fields agree, except for the comment list of a text that lost a comment, and for marks just set. */
  predicate SameText(a: TextStat, b: TextStat, lost: bool, marked: bool) {
    a.recipients == b.recipients && (lost || a.commentsIn == b.commentsIn) && (marked || a.noOfMarks == b.noOfMarks)
  }

  /** Every record cached under n agrees with the server's on the named fields, unless it belongs to a deleted text;
      the comment lists of the texts in `lost` and the marks of those in `marked` are exempt. */
  ghost predicate CoherentAt(c: Caches, w: World, lost: set<nat>, marked: set<nat>, n: nat) {
    && (n in c.uconferences ==> n in w.uconferences && SameUConference(c.uconferences[n], w.uconferences[n]))
    && (n in c.conferences ==> n in w.conferences && SameConference(c.conferences[n], w.conferences[n]))
    && (n in c.texts ==>
          || (n in w.gone && n !in w.texts)
          || (n in w.texts && SameText(c.texts[n], w.texts[n], n in lost, n in marked)))
  }

  ghost predicate CoherentExcept(c: Caches, w: World, lost: set<nat>, marked: set<nat>) {
    forall n: nat :: CoherentAt(c, w, lost, marked, n)
  }

  ghost predicate Coherent(c: Caches, w: World) {
    CoherentExcept(c, w, {}, {})
  }

  /** What a message announces, its handlers invalidate. */
  lemma HandlersKeepUpTo(c: Caches, w: World, msg: Message, w': World, lost: set<nat>, marked: set<nat>,
                         excused: set<nat>)
    requires CoherentExcept(c, w, lost, marked) && AnnouncesExcept(msg, w, w', excused)
    ensures CoherentExcept(Handle(c, msg), w', lost + excused, marked)
  {
    forall n: nat ensures CoherentAt(Handle(c, msg), w', lost + excused, marked, n) {
      assert CoherentAt(c, w, lost, marked, n) && AnnouncedAt(msg, w, w', excused, n);
    }
  }

  lemma HandlersKeepCoherence(c: Caches, w: World, msg: Message, w': World, lost: set<nat>, marked: set<nat>)
    requires CoherentExcept(c, w, lost, marked) && Announces(msg, w, w')
    ensures CoherentExcept(Handle(c, msg), w', lost, marked)
  {
    HandlersKeepUpTo(c, w, msg, w', lost, marked, {});
    assert lost + {} == lost;
  }

  // ---------- Requests and whole runs ----------

  datatype ClientRequest =
    ReqUconfStat(no: nat) | ReqConfStat(no: nat) | ReqTextStat(no: nat) | ReqMark(textNo: nat) | ReqOther

  function WithMarks(w: World, textNo: nat, marks: nat): World
    requires textNo in w.texts
  {
    w.(texts := w.texts[textNo := w.texts[textNo].(noOfMarks := marks)])
  }

  /** What a request of this client changes: marking changes the marks of its text, nothing else is changed
      without a message. */
  ghost predicate Effect(req: ClientRequest, w: World, w': World) {
    if req.ReqMark? && req.textNo in w.texts
    then exists marks: nat :: Announces(OtherMessage, WithMarks(w, req.textNo, marks), w')
    else Announces(OtherMessage, w, w')
  }

  function MarkedBy(req: ClientRequest): set<nat> {
    if req.ReqMark? then {req.textNo} else {}
  }

  /** A request makes stale at most the marks of the text it marks. */
  lemma EffectKeepsTheRest(c: Caches, w: World, lost: set<nat>, req: ClientRequest, w': World)
    requires CoherentExcept(c, w, lost, {}) && Effect(req, w, w')
    ensures CoherentExcept(c, w', lost, MarkedBy(req))
  {
    var start, marked := w, MarkedBy(req);
    if req.ReqMark? && req.textNo in w.texts {
      var marks: nat :| Announces(OtherMessage, WithMarks(w, req.textNo, marks), w');
      start := WithMarks(w, req.textNo, marks);
    }
    forall n: nat ensures CoherentAt(c, start, lost, marked, n) {
      assert CoherentAt(c, w, lost, {}, n);
    }
    HandlersKeepCoherence(c, start, OtherMessage, w', lost, marked);
  }

  /** The pieces of a run: a message is handled; a reply arrives and what it carries is cached, or the marked text is
      invalidated. */
  datatype Step = Notified(msg: Message, after: World) | Replied(req: ClientRequest, ok: bool, after: World)

  function Settle(c: Caches, req: ClientRequest, w: World): Caches {
    match req
    case ReqUconfStat(n) =>
      if n in w.uconferences then c.(uconferences := c.uconferences[n := w.uconferences[n]]) else c
    case ReqConfStat(n) => if n in w.conferences then c.(conferences := c.conferences[n := w.conferences[n]]) else c
    case ReqTextStat(n) => if n in w.texts then c.(texts := c.texts[n := w.texts[n]]) else c
    case ReqMark(n) => c.(texts := c.texts - {n})
    case ReqOther => c
  }

  function Apply(c: Caches, step: Step): Caches {
    match step
    case Notified(msg, _) => Handle(c, msg)
    case Replied(req, ok, after) => if ok then Settle(c, req, after) else c
  }

  /** The texts whose comment list is shortened when a comment is deleted: no handler forgets them. */
  function Shortened(msg: Message): set<nat> {
    if msg.DeletedText? then Elements(msg.commentTos) else {}
  }

  /** The texts that are fetched again or forgotten. */
  predicate Renews(step: Step, text: nat) {
    match step
    case Notified(msg, _) => Comments(msg, text) || ChangesRecipients(msg, text)
    case Replied(req, ok, after) => ok && (req == ReqMark(text) || (req == ReqTextStat(text) && text in after.texts))
  }

  /** The texts that lost a comment since they were fetched. */
  function LostStep(lost: set<nat>, step: Step): set<nat> {
    (set n | n in lost && !Renews(step, n)) + if step.Notified? then Shortened(step.msg) else {}
  }

  ghost predicate Legal(w: World, step: Step) {
    match step
    case Notified(msg, after) => AnnouncesExcept(msg, w, after, Shortened(msg))
    case Replied(req, ok, after) => if ok then Effect(req, w, after) else Announces(OtherMessage, w, after)
  }

  lemma SettleIsCoherent(c: Caches, req: ClientRequest, w: World, lost: set<nat>)
    requires CoherentExcept(c, w, lost, MarkedBy(req))
    ensures CoherentExcept(Settle(c, req, w), w, lost, {})
  {
    forall n: nat ensures CoherentAt(Settle(c, req, w), w, lost, {}, n) {
      assert CoherentAt(c, w, lost, MarkedBy(req), n);
    }
  }

  /** An entry that was forgotten or fetched again has its comments again. */
  lemma RenewedIsFresh(c: Caches, lost: set<nat>, step: Step)
    requires step.Notified? ==> CoherentExcept(Apply(c, step), step.after, lost + Shortened(step.msg), {})
    requires step.Replied? ==> CoherentExcept(Apply(c, step), step.after, lost, {})
    ensures CoherentExcept(Apply(c, step), step.after, LostStep(lost, step), {})
  {
    var more := if step.Notified? then lost + Shortened(step.msg) else lost;
    forall n: nat ensures CoherentAt(Apply(c, step), step.after, LostStep(lost, step), {}, n) {
      assert CoherentAt(Apply(c, step), step.after, more, {}, n);
    }
  }

  lemma StepIsCoherent(c: Caches, w: World, lost: set<nat>, step: Step)
    requires CoherentExcept(c, w, lost, {}) && Legal(w, step)
    ensures CoherentExcept(Apply(c, step), step.after, LostStep(lost, step), {})
  {
    match step {
      case Notified(msg, after) => HandlersKeepUpTo(c, w, msg, after, lost, {}, Shortened(msg));
      case Replied(req, ok, after) =>
        if ok {
          EffectKeepsTheRest(c, w, lost, req, after);
          SettleIsCoherent(c, req, after, lost);
        } else {
          HandlersKeepCoherence(c, w, OtherMessage, after, lost, {});
        }
    }
    RenewedIsFresh(c, lost, step);
  }

  ghost predicate LegalRun(w: World, steps: seq<Step>)
    decreases |steps|
  {
    steps == [] || (Legal(w, steps[0]) && LegalRun(steps[0].after, steps[1..]))
  }

  function CachesAfter(c: Caches, steps: seq<Step>): Caches
    decreases |steps|
  {
    if steps == [] then c else CachesAfter(Apply(c, steps[0]), steps[1..])
  }

  function WorldAfter(w: World, steps: seq<Step>): World {
    if steps == [] then w else steps[|steps| - 1].after
  }

  function LostAfter(lost: set<nat>, steps: seq<Step>): set<nat>
    decreases |steps|
  {
    if steps == [] then lost else LostAfter(LostStep(lost, steps[0]), steps[1..])
  }

  /** Over every run, also with deletions, the caches agree with the server on every named field except for the comment
      lists of texts that lost a comment since they were fetched. */
  lemma {:induction false} RunsAreCoherentUpTo(c: Caches, w: World, lost: set<nat>, steps: seq<Step>)
    requires CoherentExcept(c, w, lost, {}) && LegalRun(w, steps)
    ensures CoherentExcept(CachesAfter(c, steps), WorldAfter(w, steps), LostAfter(lost, steps), {})
    decreases |steps|
  {
    if steps != [] {
      StepIsCoherent(c, w, lost, steps[0]);
      RunsAreCoherentUpTo(Apply(c, steps[0]), steps[0].after, LostStep(lost, steps[0]), steps[1..]);
    }
  }

  /** No comment list is shortened. */
  predicate NoneShortened(steps: seq<Step>) {
    forall i :: 0 <= i < |steps| && steps[i].Notified? ==> Shortened(steps[i].msg) == {}
  }

  lemma {:induction false} NothingLost(steps: seq<Step>)
    requires NoneShortened(steps)
    ensures LostAfter({}, steps) == {}
    decreases |steps|
  {
    if steps != [] {
      assert LostStep({}, steps[0]) == {};
      NothingLost(steps[1..]);
    }
  }

  /** When no comment list is shortened, the caches stay coherent with the last message read. */
  lemma RunsAreCoherent(c: Caches, w: World, steps: seq<Step>)
    requires Coherent(c, w) && LegalRun(w, steps) && NoneShortened(steps)
    ensures Coherent(CachesAfter(c, steps), WorldAfter(w, steps))
  {
    RunsAreCoherentUpTo(c, w, {}, steps);
    NothingLost(steps);
  }

  /** A deleted text stays in the cache as it was, until it is forgotten for another reason: exactly then. */
  lemma {:induction false} DeletedStaysCached(c: Caches, w: World, steps: seq<Step>, text: nat)
    requires LegalRun(w, steps) && text in w.gone && text !in w.texts
    ensures var c' := CachesAfter(c, steps);
            && (text in c'.texts <==>
                  text in c.texts && forall i :: 0 <= i < |steps| ==> !Renews(steps[i], text))
            && (text in c'.texts ==> c'.texts[text] == c.texts[text])
    decreases |steps|
  {
    if steps != [] {
      var step := steps[0];
      GoneStaysGone(w, step, text);
      DeletedStaysCached(Apply(c, step), step.after, steps[1..], text);
      assert forall i :: 1 <= i < |steps| ==> steps[i] == steps[1..][i - 1];
      assert (forall i :: 0 <= i < |steps| ==> !Renews(steps[i], text)) <==>
             !Renews(step, text) && forall i :: 0 <= i < |steps[1..]| ==> !Renews(steps[1..][i], text);
    }
  }

  lemma GoneStaysGone(w: World, step: Step, text: nat)
    requires Legal(w, step) && text in w.gone && text !in w.texts
    ensures text in step.after.gone && text !in step.after.texts
  {
    match step
    case Notified(msg, after) => assert AnnouncedAt(msg, w, after, Shortened(msg), text);
    case Replied(req, ok, after) =>
      if ok && req.ReqMark? && req.textNo in w.texts {
        var marks: nat :| Announces(OtherMessage, WithMarks(w, req.textNo, marks), after);
        assert AnnouncedAt(OtherMessage, WithMarks(w, req.textNo, marks), after, {}, text);
      } else {
        assert AnnouncedAt(OtherMessage, w, after, {}, text);
      }
  }

  // ---------- What a server does when it sends a message ----------

  /** Some records are changed, the others are not. */
  function Changed<V>(m: map<nat, V>, which: set<nat>, change: V -> V): map<nat, V> {
    map n | n in m :: if n in which then change(m[n]) else m[n]
  }

  function Minus1(n: nat): nat {
    if n == 0 then 0 else n - 1
  }

  /** The records after the event that a message tells of; `name` is the new name in new-name. */
  function Performed(w: World, msg: Message, name: nat): World {
    match msg
    case NewName(conf) =>
      w.(uconferences := Changed(w.uconferences, {conf}, (u: UConference) => u.(name := name)),
         conferences := Changed(w.conferences, {conf}, (c: Conference) => c.(name := name)))
    case LeaveConf(conf) =>
      w.(conferences :=
           Changed(w.conferences, {conf}, (c: Conference) => c.(noOfMembers := Minus1(c.noOfMembers))))
    case NewMembership(conf) =>
      w.(conferences := Changed(w.conferences, {conf}, (c: Conference) => c.(noOfMembers := c.noOfMembers + 1)))
    case NewText(text, recipients, commentTos) =>
      TextAdded(w, Elements(recipients)).(
        texts := Changed(w.texts, Elements(commentTos), (t: TextStat) => t.(commentsIn := t.commentsIn + {text}))
                 [text := TextStat(Elements(recipients), {}, 0, 0)])
    case NewRecipient(text, conf) =>
      TextAdded(w, {conf}).(
        texts := Changed(w.texts, {text}, (t: TextStat) => t.(recipients := t.recipients + {conf})))
    case SubRecipient(text, conf) =>
      TextRemoved(w, {conf}).(
        texts := Changed(w.texts, {text}, (t: TextStat) => t.(recipients := t.recipients - {conf})))
    case DeletedText(text, recipients, commentTos) =>
      TextRemoved(WithoutText(w, text, Elements(commentTos)), Elements(recipients))
    case OtherMessage => w
  }

  function TextAdded(w: World, confs: set<nat>): World {
    w.(uconferences :=
         Changed(w.uconferences, confs, (u: UConference) => u.(highestLocalNo := u.highestLocalNo + 1)),
       conferences := Changed(w.conferences, confs, (c: Conference) => c.(noOfTexts := c.noOfTexts + 1)))
  }

  function TextRemoved(w: World, confs: set<nat>): World {
    w.(conferences := Changed(w.conferences, confs, (c: Conference) => c.(noOfTexts := Minus1(c.noOfTexts))))
  }

  /** A server that only does what its messages tell of announces what it changes. */
  lemma PerformedIsLegal(w: World, msg: Message, name: nat)
    requires w.texts.Keys !! w.gone
    requires msg.NewText? ==> msg.textNo !in w.texts && msg.textNo !in w.gone
    ensures Legal(w, Notified(msg, Performed(w, msg, name)))
    ensures msg.DeletedText? && msg.textNo in w.texts ==> msg.textNo !in Performed(w, msg, name).texts
    ensures msg.NewText? ==> msg.textNo in Performed(w, msg, name).texts
  {
    var after := Performed(w, msg, name);
    forall n: nat ensures AnnouncedAt(msg, w, after, Shortened(msg), n) {
    }
  }

  // ---------- Deleting a comment ----------

  /** The server's own view of a deletion: the text also leaves the comment lists of the texts it commented. */
  function WithoutText(w: World, text: nat, commentTos: set<nat>): World {
    w.(texts := map n | n in w.texts && n != text ::
                  if n in commentTos then w.texts[n].(commentsIn := w.texts[n].commentsIn - {text}) else w.texts[n],
       gone := w.gone + {text})
  }

  /** The deletion handler leaves the commented texts cached, so the caches stay coherent with the shortened comment
      lists if and only if none of the commented texts is cached. */
  lemma DeletionIsCoherent(c: Caches, w: World, text: nat, recipients: seq<nat>, commentTos: seq<nat>)
    requires Coherent(c, w) && text in w.texts && text !in commentTos
    requires forall n :: n in commentTos && n in w.texts ==> text in w.texts[n].commentsIn && n !in w.gone
    ensures Coherent(Handle(c, DeletedText(text, recipients, commentTos)), WithoutText(w, text, Elements(commentTos)))
       <==> forall n :: n in commentTos && n in w.texts ==> n !in c.texts
  {
    var c' := Handle(c, DeletedText(text, recipients, commentTos));
    var w' := WithoutText(w, text, Elements(commentTos));
    forall n: nat
      ensures CoherentAt(c', w', {}, {}, n) <==> !(n in commentTos && n in w.texts && n in c.texts)
    {
      assert CoherentAt(c, w, {}, {}, n);
      assert n in commentTos && n in w.texts ==> text !in w'.texts[n].commentsIn;
    }
    if Coherent(c', w') {
      forall n | n in commentTos && n in w.texts ensures n !in c.texts {
        assert CoherentAt(c', w', {}, {}, n);
      }
    }
  }
}

/** CachingClient: the caches as objects, filled by requests whose waiting handles the messages that come first. */
module CachingClients {
  import opened CacheCoherence
  import opened Options
  import opened Streams

  type ServerEvent = Event<Message, World>

  type ServerLink = Link<Message, World>

  class Cache<V> {
    var dict: map<nat, V>

    constructor ()
      ensures dict == map[]
    {
      dict := map[];
    }

    method SetItem(no: nat, val: V)
      modifies this
      ensures dict == old(dict)[no := val]
    {
      dict := dict[no := val];
    }

    method Invalidate(no: nat)
      modifies this
      ensures dict == old(dict) - {no}
    {
      if no in dict {
        dict := dict - {no};
      } else {
        assert dict - {no} == dict;
      }
    }

    /** The loop of a handler over a list of numbers. */
    method InvalidateEach(nos: seq<nat>)
      modifies this
      ensures dict == old(dict) - Elements(nos)
    {
      for i := 0 to |nos|
        invariant dict == old(dict) - Elements(nos[..i])
      {
        ElementsSnoc(nos, i);
        Invalidate(nos[i]);
      }
      assert nos[..|nos|] == nos;
    }
  }

  // ---------- Waiting for a reply ----------

  /** The caches when the messages in front of the next reply have been handled. */
  function Handled(c: Caches, events: seq<ServerEvent>): Caches
    decreases |events|
  {
    if events == [] || events[0].Reply? then c else Handled(Handle(c, events[0].msg), events[1..])
  }

  /** The texts that have lost a comment by then. */
  function LostWaiting(lost: set<nat>, events: seq<ServerEvent>): set<nat>
    decreases |events|
  {
    if events == [] || events[0].Reply? then lost
    else LostWaiting(LostStep(lost, Notified(events[0].msg, events[0].after)), events[1..])
  }

  /** The stream up to the reply to `req` is that of a server that announces what it changes; when a comment is deleted,
      the comment lists that held it get shorter. */
  ghost predicate Serves(req: ClientRequest, w: World, events: seq<ServerEvent>)
    decreases |events|
  {
    events == [] ||
    match events[0]
    case Notice(msg, after) => Legal(w, Notified(msg, after)) && Serves(req, after, events[1..])
    case Reply(ok, after) => Legal(w, Replied(req, ok, after))
  }

  /** While a request waits, the caches follow the server, up to what the request itself changes. */
  lemma {:induction false} WaitingIsCoherent(c: Caches, w: World, lost: set<nat>, req: ClientRequest,
                                             events: seq<ServerEvent>)
    requires CoherentExcept(c, w, lost, {}) && Serves(req, w, events)
    ensures CoherentExcept(Handled(c, events), WorldThen(w, events), LostWaiting(lost, events),
                           if Granted(events) then MarkedBy(req) else {})
    decreases |events|
  {
    if events != [] {
      match events[0]
      case Notice(msg, after) =>
        StepIsCoherent(c, w, lost, Notified(msg, after));
        WaitingIsCoherent(Handle(c, msg), after, LostStep(lost, Notified(msg, after)), req, events[1..]);
      case Reply(ok, after) =>
        if ok {
          EffectKeepsTheRest(c, w, lost, req, after);
        } else {
          HandlersKeepCoherence(c, w, OtherMessage, after, lost, {});
        }
    }
  }

  /** What a request leaves in the caches: the messages are handled, then an answer is kept, or a mark forgotten. */
  function Fetched(c: Caches, w: World, req: ClientRequest, events: seq<ServerEvent>): Caches {
    Apply(Handled(c, events), Replied(req, Granted(events), WorldThen(w, events)))
  }

  function LostThen(lost: set<nat>, w: World, req: ClientRequest, events: seq<ServerEvent>): set<nat> {
    LostStep(LostWaiting(lost, events), Replied(req, Granted(events), WorldThen(w, events)))
  }

  lemma FetchedIsCoherent(c: Caches, w: World, lost: set<nat>, req: ClientRequest, events: seq<ServerEvent>)
    requires CoherentExcept(c, w, lost, {}) && Serves(req, w, events)
    ensures CoherentExcept(Fetched(c, w, req, events), WorldThen(w, events), LostThen(lost, w, req, events), {})
  {
    var c', w', lost' := Handled(c, events), WorldThen(w, events), LostWaiting(lost, events);
    WaitingIsCoherent(c, w, lost, req, events);
    if Granted(events) {
      SettleIsCoherent(c', req, w', lost');
    }
    RenewedIsFresh(c', lost', Replied(req, Granted(events), w'));
  }

  class CachingClient {
    const link: ServerLink
    const uconferences: Cache<UConference>
    const conferences: Cache<Conference>
    const textstats: Cache<TextStat>
    /** The texts that lost a comment since they were fetched. */
    ghost var lost: set<nat>

    constructor (link: ServerLink)
      ensures this.link == link && fresh(uconferences) && fresh(conferences) && fresh(textstats)
      ensures Valid() && lost == {}
    {
      this.link := link;
      lost := {};
      uconferences := new Cache();
      conferences := new Cache();
      textstats := new Cache();
    }

    ghost function Repr(): set<object> {
      {this, link, uconferences, conferences, textstats}
    }

    /** The caches are coherent with what was read last, up to the comment lists that got shorter. */
    ghost predicate Valid()
      reads Repr()
    {
      CoherentExcept(Now(), link.world, lost, {})
    }

    ghost function Now(): Caches
      reads uconferences, conferences, textstats
    {
      Caches(uconferences.dict, conferences.dict, textstats.dict)
    }

    /** _handle_async_message with the handlers it dispatches to. */
    method HandleAsyncMessage(msg: Message)
      modifies uconferences, conferences, textstats
      ensures Now() == Handle(old(Now()), msg)
    {
      match msg {
        case NewName(conf) =>
          uconferences.Invalidate(conf);
          conferences.Invalidate(conf);
        case LeaveConf(conf) =>
          conferences.Invalidate(conf);
        case DeletedText(_, recipients, _) =>
          conferences.InvalidateEach(recipients);
        case NewText(_, recipients, commentTos) =>
          conferences.InvalidateEach(recipients);
          uconferences.InvalidateEach(recipients);
          textstats.InvalidateEach(commentTos);
        case NewRecipient(text, conf) =>
          conferences.Invalidate(conf);
          uconferences.Invalidate(conf);
          textstats.Invalidate(text);
        case SubRecipient(text, conf) =>
          conferences.Invalidate(conf);
          textstats.Invalidate(text);
        case NewMembership(conf) =>
          conferences.Invalidate(conf);
        case OtherMessage =>
      }
    }

    /** request: messages are handled until the reply comes.  False: an error was raised.  What the server makes of
        `req` is in the stream. */
    method Request(ghost req: ClientRequest) returns (ok: bool)
      modifies link, uconferences, conferences, textstats
      ensures ok == Granted(old(link.events)) && link.events == Remaining(old(link.events))
      ensures link.world == WorldThen(old(link.world), old(link.events))
      ensures Now() == Handled(old(Now()), old(link.events))
    {
      ghost var events, world, caches := link.events, link.world, Now();
      while |link.events| > 0
        invariant Granted(events) == Granted(link.events) && Remaining(events) == Remaining(link.events)
        invariant WorldThen(world, events) == WorldThen(link.world, link.events)
        invariant Handled(caches, events) == Handled(Now(), link.events)
        decreases |link.events|
      {
        var event := link.events[0];
        link.events := link.events[1..];
        link.world := event.after;
        match event {
          case Notice(msg, _) => HandleAsyncMessage(msg);
          case Reply(replyOk, _) => return replyOk;
        }
      }
      return false;
    }

    /** uconferences[no]: from the cache, or fetched and kept. */
    method GetUConference(no: nat) returns (r: Option<UConference>)
      requires Valid() && Serves(ReqUconfStat(no), link.world, link.events)
      modifies Repr()
      ensures Valid()
      ensures no in old(uconferences.dict) ==>
                r == Some(old(uconferences.dict)[no]) && Now() == old(Now()) && lost == old(lost) &&
                link.events == old(link.events)
      ensures no !in old(uconferences.dict) ==>
                && Now() == Fetched(old(Now()), old(link.world), ReqUconfStat(no), old(link.events))
                && lost == LostThen(old(lost), old(link.world), ReqUconfStat(no), old(link.events))
                && (r.Some? <==> Granted(old(link.events)) && no in link.world.uconferences)
      ensures r.Some? ==> no in uconferences.dict && uconferences.dict[no] == r.value
      ensures r.Some? && no !in old(uconferences.dict) ==>
                no in link.world.uconferences && r.value == link.world.uconferences[no]
      ensures r.Some? ==> no in link.world.uconferences && SameUConference(r.value, link.world.uconferences[no])
    {
      assert CoherentAt(Now(), link.world, lost, {}, no);
      if no !in uconferences.dict {
        FetchedIsCoherent(Now(), link.world, lost, ReqUconfStat(no), link.events);
        lost := LostThen(lost, link.world, ReqUconfStat(no), link.events);
        var ok := Request(ReqUconfStat(no));
        if !ok || no !in link.world.uconferences {
          return None;
        }
        uconferences.SetItem(no, link.world.uconferences[no]);
      }
      return Some(uconferences.dict[no]);
    }

    /** conferences[no] */
    method GetConference(no: nat) returns (r: Option<Conference>)
      requires Valid() && Serves(ReqConfStat(no), link.world, link.events)
      modifies Repr()
      ensures Valid()
      ensures no in old(conferences.dict) ==>
                r == Some(old(conferences.dict)[no]) && Now() == old(Now()) && lost == old(lost) &&
                link.events == old(link.events)
      ensures no !in old(conferences.dict) ==>
                && Now() == Fetched(old(Now()), old(link.world), ReqConfStat(no), old(link.events))
                && lost == LostThen(old(lost), old(link.world), ReqConfStat(no), old(link.events))
                && (r.Some? <==> Granted(old(link.events)) && no in link.world.conferences)
      ensures r.Some? ==> no in conferences.dict && conferences.dict[no] == r.value
      ensures r.Some? && no !in old(conferences.dict) ==>
                no in link.world.conferences && r.value == link.world.conferences[no]
      ensures r.Some? ==> no in link.world.conferences && SameConference(r.value, link.world.conferences[no])
    {
      assert CoherentAt(Now(), link.world, lost, {}, no);
      if no !in conferences.dict {
        FetchedIsCoherent(Now(), link.world, lost, ReqConfStat(no), link.events);
        lost := LostThen(lost, link.world, ReqConfStat(no), link.events);
        var ok := Request(ReqConfStat(no));
        if !ok || no !in link.world.conferences {
          return None;
        }
        conferences.SetItem(no, link.world.conferences[no]);
      }
      return Some(conferences.dict[no]);
    }

    /** textstats[no]; a deleted text may still be answered from the cache, and a text that lost a comment with it. */
    method GetTextStat(no: nat) returns (r: Option<TextStat>)
      requires Valid() && Serves(ReqTextStat(no), link.world, link.events)
      modifies Repr()
      ensures Valid()
      ensures no in old(textstats.dict) ==>
                r == Some(old(textstats.dict)[no]) && Now() == old(Now()) && lost == old(lost) &&
                link.events == old(link.events)
      ensures no !in old(textstats.dict) ==>
                && Now() == Fetched(old(Now()), old(link.world), ReqTextStat(no), old(link.events))
                && lost == LostThen(old(lost), old(link.world), ReqTextStat(no), old(link.events))
                && (r.Some? <==> Granted(old(link.events)) && no in link.world.texts)
      ensures r.Some? ==> no in textstats.dict && textstats.dict[no] == r.value
      ensures r.Some? && no !in old(textstats.dict) ==> no in link.world.texts && r.value == link.world.texts[no]
      ensures r.Some? ==>
                if no in link.world.texts then SameText(r.value, link.world.texts[no], no in lost, false)
                else no in link.world.gone && no in old(textstats.dict)
      ensures r.Some? && no !in old(textstats.dict) ==> no !in lost
    {
      assert CoherentAt(Now(), link.world, lost, {}, no);
      if no !in textstats.dict {
        FetchedIsCoherent(Now(), link.world, lost, ReqTextStat(no), link.events);
        lost := LostThen(lost, link.world, ReqTextStat(no), link.events);
        var ok := Request(ReqTextStat(no));
        if !ok || no !in link.world.texts {
          return None;
        }
        textstats.SetItem(no, link.world.texts[no]);
      }
      return Some(textstats.dict[no]);
    }

    /** mark_text and unmark_text */
    method MarkText(textNo: nat) returns (ok: bool)
      requires Valid() && Serves(ReqMark(textNo), link.world, link.events)
      modifies Repr()
      ensures Valid() && ok == Granted(old(link.events))
      ensures Now() == var c := Handled(old(Now()), old(link.events));
                       if ok then c.(texts := c.texts - {textNo}) else c
      ensures lost == LostThen(old(lost), old(link.world), ReqMark(textNo), old(link.events))
    {
      FetchedIsCoherent(Now(), link.world, lost, ReqMark(textNo), link.events);
      lost := LostThen(lost, link.world, ReqMark(textNo), link.events);
      ok := Request(ReqMark(textNo));
      if ok {
        textstats.Invalidate(textNo);
      }
    }
  }
}
