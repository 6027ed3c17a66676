/**
 What the hash of an event pins down: everything about it, its body up to the way numbers are written.
 */
module EventTheorems {
  import opened Canonical
  import opened Ledger
  import opened LedgerTheorems

  /** The length of a type's name and two of its characters, which tell all of them apart. */
  function MarkOf(t: EventType): (nat, char, char) {
    match t
    case ContractPublished => (18, 'c', 'u')
    case CandidateVerified => (18, 'c', 'v')
    case PlanSealed => (11, 'p', 'd')
    case ApplyStarted => (13, 'a', 't')
    case ApplyFinished => (14, 'a', 's')
    case ApplyFailed => (12, 'a', 'e')
    case ObservationRecorded => (20, 'o', 'n')
    case ViolationDetected => (18, 'v', 'd')
    case ViolationResolved => (18, 'v', 'r')
    case ProbeFailed => (12, 'p', 'e')
    case ObservationFailed => (18, 'o', 'n')
    case BindingUpdated => (15, 'b', 'd')
    case LeaseAcquired => (14, 'l', 'i')
    case LeaseRenewed => (13, 'l', 'w')
    case LeaseReleased => (14, 'l', 'a')
    case LeaseBroken => (12, 'l', 'e')
    case OperationReceipt => (17, 'o', 'r')
    case OwnershipClaimed => (17, 'o', 'c')
    case ConvergeStarted => (16, 'c', 't')
    case ConvergePhaseEntered => (22, 'c', 'h')
    case ConvergeFinished => (17, 'c', 'i')
    case ConvergeFailed => (15, 'c', 'a')
  }

  lemma NameHasMark(t: EventType)
    ensures var n := TypeName(t); |n| > 10 && MarkOf(t) == (|n|, n[0], n[10])
  {
  }

  /** No two types share a name. */
  lemma TypeNamesDiffer(t: EventType, u: EventType)
    requires TypeName(t) == TypeName(u)
    ensures t == u
  {
    NameHasMark(t);
    NameHasMark(u);
    hide TypeName;
  }

  // ---- the fields of an event's tree -----------------------------------------

  function ActorTree(a: Actor): Value {
    Dict(map["id" := Str(a.id), "type" := Str(a.actorType)])
  }

  /** The tree an event is hashed as, once numbers are written out. */
  ghost function NormalTree(ev: Event): map<string, Value>
    requires Accepts(Dict(EventTree(ev)))
  {
    Norm(Dict(EventTree(ev))).entries
  }

  lemma PlainFields(ev: Event)
    requires Accepts(Dict(EventTree(ev)))
    ensures var m := NormalTree(ev);
      && "type" in m && m["type"] == Str(TypeName(ev.req.typ))
      && "environment" in m && m["environment"] == Str(ev.env)
      && "occurredAt" in m && m["occurredAt"] == Str(IntStr(ev.time))
  {
    hide TypeName, IntStr, HeadsTree;
    var tree := EventTree(ev);
    assert tree["type"] == Str(TypeName(ev.req.typ)) && tree["environment"] == Str(ev.env)
      && tree["occurredAt"] == Str(IntStr(ev.time));
    assert forall k :: k in tree ==> NormalTree(ev)[k] == Norm(tree[k]);
  }

  lemma ActorIsNormal(a: Actor)
    ensures Accepts(ActorTree(a)) && Norm(ActorTree(a)) == ActorTree(a)
  {
    var m := ActorTree(a).entries;
    assert forall k :: k in m ==> Accepts(m[k]) && Norm(m[k]) == m[k];
    assert Norm(ActorTree(a)).entries == m;
  }

  lemma ActorField(ev: Event)
    requires Accepts(Dict(EventTree(ev)))
    ensures var m := NormalTree(ev); "actor" in m && m["actor"] == ActorTree(ev.req.actor)
  {
    hide TypeName, IntStr, HeadsTree;
    ActorIsNormal(ev.req.actor);
    assert EventTree(ev)["actor"] == ActorTree(ev.req.actor);
    hide ActorTree;
  }

  lemma OptionalFields(ev: Event)
    requires Accepts(Dict(EventTree(ev)))
    ensures var m := NormalTree(ev);
      && ("body" in m <==> ev.req.body.Some?)
      && (ev.req.body.Some? ==> Accepts(Dict(ev.req.body.value)) && m["body"] == Norm(Dict(ev.req.body.value)))
      && ("fencingToken" in m <==> ev.req.token.Some?)
      && (ev.req.token.Some? ==>
            NumStr(Int(ev.req.token.value)).Some? && m["fencingToken"] == Norm(Int(ev.req.token.value)))
  {
    hide TypeName, IntStr, HeadsTree;
    var tree := EventTree(ev);
    assert "body" in tree <==> ev.req.body.Some?;
    assert "fencingToken" in tree <==> ev.req.token.Some?;
    if ev.req.body.Some? {
      assert tree["body"] == Dict(ev.req.body.value) && Accepts(tree["body"]);
    }
    if ev.req.token.Some? {
      assert tree["fencingToken"] == Int(ev.req.token.value) && Accepts(tree["fencingToken"]);
    }
  }

  lemma IntStrInjective(m: int, n: int)
    requires IntStr(m) == IntStr(n)
    ensures m == n
  {
    IntReadsBack(m);
    IntReadsBack(n);
  }

  lemma TokensAgree(m: int, n: int)
    requires NumStr(Int(m)).Some? && NumStr(Int(n)).Some? && Norm(Int(m)) == Norm(Int(n))
    ensures m == n
  {
    NumStrInjective(Int(m), Int(n));
  }

  /** One body up to the way numbers are written, or none on both sides. */
  ghost predicate SameBody(b: Body, b': Body) {
    && (b.Some? <==> b'.Some?)
    && (b.Some? && b'.Some? ==>
          Accepts(Dict(b.value)) && Accepts(Dict(b'.value)) && Norm(Dict(b.value)) == Norm(Dict(b'.value)))
  }

  /** Events with one hash are one event: the same type, capabilities, actor, token, environment, time and previous
      heads, and the same body up to the way its numbers are written. */
  lemma HashFixesEvent(d: Event, e: Event)
    requires HashOf(d).Some? && HashOf(d) == HashOf(e)
    ensures d.req.typ == e.req.typ && d.req.caps == e.req.caps && d.req.actor == e.req.actor
    ensures d.req.token == e.req.token && d.env == e.env && d.time == e.time && d.prev == e.prev
    ensures SameBody(d.req.body, e.req.body)
  {
    HashFixesHistory(d, e);
    EventIdentity(EventDoc(d), EventDoc(e));
    UnsignedTree(d);
    UnsignedTree(e);
    hide *;
    TreesAgree(d, e);
  }

  lemma TreesAgree(d: Event, e: Event)
    requires Accepts(Dict(EventTree(d))) && Accepts(Dict(EventTree(e)))
    requires Norm(Dict(EventTree(d))) == Norm(Dict(EventTree(e)))
    ensures d.req.typ == e.req.typ && d.req.actor == e.req.actor
    ensures d.req.token == e.req.token && d.env == e.env && d.time == e.time
    ensures SameBody(d.req.body, e.req.body)
  {
    hide EventTree, Norm, Accepts, TypeName, IntStr, NumStr;
    PlainFields(d);
    PlainFields(e);
    TypeNamesDiffer(d.req.typ, e.req.typ);
    IntStrInjective(d.time, e.time);
    ActorField(d);
    ActorField(e);
    ActorsAgree(d.req.actor, e.req.actor);
    OptionalFields(d);
    OptionalFields(e);
    if d.req.token.Some? { TokensAgree(d.req.token.value, e.req.token.value); }
  }

  lemma ActorsAgree(a: Actor, b: Actor)
    requires ActorTree(a) == ActorTree(b)
    ensures a == b
  {
    var m, n := ActorTree(a).entries, ActorTree(b).entries;
    assert m["id"] == Str(a.id) && n["id"] == Str(b.id);
    assert m["type"] == Str(a.actorType) && n["type"] == Str(b.actorType);
  }
}
