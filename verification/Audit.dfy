/**
 Judging a contract against recorded observations (go/internal/audit/audit.go): which record is believed, and what may
 count as evidence for a security control.
 */
module Audit {
  import opened Prelude
  import opened Scalars
  import opened Sorting
  import opened Verify

  /** The time written in a record; `clock` is None when the text is not a timestamp. */
  datatype Stamp = Stamp(text: string, clock: Option<int>)

  /** `value` is None when the recorded value is not a scalar. */
  datatype ObsRecord = ObsRecord(value: Option<Scalar>, observedAt: Stamp, ttl: int, derivation: string)

  /** The latest record of each source, for one attribute of one capability. */
  type BySource = map<string, ObsRecord>

  // ---- the strength of evidence ----------------------------------------------

  function MethodRank(m: string): nat {
    if m == "probe" then 2 else if m == "provider-api" then 1 else 0
  }

  function SourceRank(source: string): nat {
    if source == "probe" then 2 else if source == "provider-api" then 1 else 0
  }

  /** A declared setting and a platform guarantee are evidence at the static bar only. */
  function EvidenceRank(source: string, derivation: string): nat {
    var r := SourceRank(source);
    if (derivation == "config-intent" || derivation == "platform-invariant") && r > 0 then 0 else r
  }

  const SECURITY_NAMESPACES: seq<string> := [
    "encryption.", "network.publicExposure", "tls.", "rotation.", "retention.locked", "protection.level",
    "deletion.protection", "access.privileged", "sso.enforced", "mfa.required", "assertions.signed",
    "pkce.required", "client.authentication", "redirects.exactMatch", "redirects.wildcardsAllowed",
    "token.asymmetricSigning", "grants.implicit", "refreshToken.rotation", "sourceProvenance",
    "network.apiExposure", "authentication.dkim", "retention.lockMode", "security.podSecurity",
    "dnssec.enabled", "image.signedProvenance", "ingress.public", "egress.internet", "serviceAccess.private",
    "interconnect.private", "access.mutating", "role.permissions", "immutable.tags", "viewer.protocol",
    "integrity.logValidation", "key.exportable", "audience.restricted", "grant.principal", "grant.role",
    "access.scope", "grants.clientCredentials", "grants.authorizationCode", "trust.principals",
    "security.scanOnPush", "flowLogs.enabled", "cors.allowedOrigins", "scopes.granted", "secret.maxAge" ]

  predicate StartsWith(s: string, p: string) {
    p <= s
  }

  predicate EndsWithDot(s: string) {
    s != "" && s[|s| - 1] == '.'
  }

  predicate Covers(ns: string, path: string) {
    || path == ns
    || StartsWith(path, ns + ".")
    || (EndsWithDot(ns) && StartsWith(path, ns))
  }

  predicate IsSecurityPath(path: string) {
    exists ns :: ns in SECURITY_NAMESPACES && Covers(ns, path)
  }

  // ---- choosing the record ---------------------------------------------------

  predicate MoreRecent(a: ObsRecord, b: ObsRecord) {
    if a.observedAt.clock.None? || b.observedAt.clock.None?
    then StrLess(b.observedAt.text, a.observedAt.text)
    else a.observedAt.clock.value > b.observedAt.clock.value
  }

  predicate IsFuture(r: ObsRecord, clock: int) {
    r.observedAt.clock.Some? && r.observedAt.clock.value > clock
  }

  predicate Meets(records: BySource, src: string, need: nat) {
    src in records && EvidenceRank(src, records[src].derivation) >= need
  }

  /** Strong enough, and not dated after the moment the audit is for. */
  predicate Eligible(records: BySource, src: string, need: nat, clock: int) {
    Meets(records, src, need) && !IsFuture(records[src], clock)
  }

  datatype Selection = Found(rec: ObsRecord) | NoneRecorded | TooWeak | OnlyFuture

  datatype Scan = Scan(best: Option<ObsRecord>, sufficient: bool, future: bool)

  /** One turn of the loop over the sources. */
  function Look(st: Scan, src: string, r: ObsRecord, need: nat, clock: int): Scan {
    if EvidenceRank(src, r.derivation) < need then st
    else if IsFuture(r, clock) then st.(sufficient := true, future := true)
    else st.(sufficient := true,
             best := if st.best.None? || MoreRecent(r, st.best.value) then Some(r) else st.best)
  }

  function ScanIn(records: BySource, order: seq<string>, need: nat, clock: int): Scan
    requires forall s :: s in order ==> s in records
  {
    if order == [] then Scan(None, false, false)
    else
      var last := order[|order| - 1];
      assert last in order;
      assert forall s :: s in order[..|order| - 1] ==> s in order;
      Look(ScanIn(records, order[..|order| - 1], need, clock), last, records[last], need, clock)
  }

  function Conclude(records: BySource, st: Scan): Selection {
    if records == map[] then NoneRecorded
    else if !st.sufficient then TooWeak
    else if st.best.Some? then Found(st.best.value)
    else if st.future then OnlyFuture
    else NoneRecorded
  }

  ghost predicate IsOrderOf(order: seq<string>, keys: set<string>) {
    && (forall s :: s in order <==> s in keys)
    && (forall i, j :: 0 <= i < j < |order| ==> order[i] != order[j])
  }

  function SelectIn(records: BySource, order: seq<string>, need: nat, clock: int): Selection
    requires forall s :: s in order ==> s in records
  {
    Conclude(records, ScanIn(records, order, need, clock))
  }

  /** Nothing eligible is more recent. */
  ghost predicate Newest(records: BySource, src: string, need: nat, clock: int) {
    && Eligible(records, src, need, clock)
    && forall u :: Eligible(records, u, need, clock) ==> !MoreRecent(records[u], records[src])
  }

  /** Every sufficient record has a time that can be read. */
  ghost predicate AllDated(records: BySource, need: nat) {
    forall s :: Meets(records, s, need) ==> records[s].observedAt.clock.Some?
  }

  /** What a choice has to mean, whatever order the sources came in. */
  ghost predicate Justified(records: BySource, need: nat, clock: int, sel: Selection) {
    && (sel == NoneRecorded <==> records == map[])
    && (sel == TooWeak <==> records != map[] && forall s :: !Meets(records, s, need))
    && (sel == OnlyFuture <==>
        (exists s :: Meets(records, s, need)) && forall s :: Meets(records, s, need) ==> IsFuture(records[s], clock))
    && (sel.Found? ==> exists s :: Eligible(records, s, need, clock) && records[s] == sel.rec)
    && (sel.Found? && AllDated(records, need) ==> exists s :: Newest(records, s, need, clock) && records[s] == sel.rec)
  }

  /** `latestSufficient`: the sources are visited in whatever order the map yields them. */
  method LatestSufficient(records: BySource, verifyMethod: string, clock: int)
    returns (sel: Selection, ghost order: seq<string>)
    ensures IsOrderOf(order, records.Keys) && sel == SelectIn(records, order, MethodRank(verifyMethod), clock)
    ensures Justified(records, MethodRank(verifyMethod), clock, sel)
  {
    var need := MethodRank(verifyMethod);
    var best: Option<ObsRecord> := None;
    var sufficient, future := false, false;
    var rest := records.Keys;
    order := [];
    while rest != {}
      invariant rest <= records.Keys && IsOrderOf(order, records.Keys - rest)
      invariant Scan(best, sufficient, future) == ScanIn(records, order, need, clock)
    {
      var src :| src in rest;
      var r := records[src];
      rest := rest - {src};
      assert (order + [src])[..|order|] == order;
      order := order + [src];
      if EvidenceRank(src, r.derivation) < need { continue; }
      sufficient := true;
      if IsFuture(r, clock) {
        future := true;
        continue;
      }
      if best.None? || MoreRecent(r, best.value) { best := Some(r); }
    }
    sel := if records == map[] then NoneRecorded
           else if !sufficient then TooWeak
           else if best.None? && future then OnlyFuture
           else if best.None? then NoneRecorded
           else Found(best.value);
    EveryOrderIsJustified(records, order, need, clock);
  }

  // ---- what is chosen --------------------------------------------------------

  ghost predicate MeetsIn(records: BySource, order: seq<string>, need: nat) {
    exists s :: s in order && Meets(records, s, need)
  }

  ghost predicate FutureIn(records: BySource, order: seq<string>, need: nat, clock: int) {
    exists s :: s in order && Meets(records, s, need) && IsFuture(records[s], clock)
  }

  ghost predicate EligibleIn(records: BySource, order: seq<string>, need: nat, clock: int) {
    exists s :: s in order && Eligible(records, s, need, clock)
  }

  ghost predicate BestIn(records: BySource, order: seq<string>, need: nat, clock: int, best: ObsRecord) {
    && (exists s :: s in order && Eligible(records, s, need, clock) && records[s] == best)
    && (AllDated(records, need) ==>
        forall u :: u in order && Eligible(records, u, need, clock) ==> !MoreRecent(records[u], best))
  }

  lemma {:induction false} ScanFinds(records: BySource, order: seq<string>, need: nat, clock: int)
    requires forall s :: s in order ==> s in records
    ensures var st := ScanIn(records, order, need, clock);
      && (st.sufficient <==> MeetsIn(records, order, need))
      && (st.future <==> FutureIn(records, order, need, clock))
      && (st.best.Some? <==> EligibleIn(records, order, need, clock))
      && (st.best.Some? ==> BestIn(records, order, need, clock, st.best.value))
  {
    if order != [] {
      var past, last := order[..|order| - 1], order[|order| - 1];
      assert order == past + [last];
      assert forall s :: s in order <==> s in past || s == last;
      ScanFinds(records, past, need, clock);
      var before := ScanIn(records, past, need, clock);
      if Eligible(records, last, need, clock) {
        assert last in order;
        if AllDated(records, need) && before.best.Some? {
          BestGrows(records, past, last, need, clock, before.best.value);
        }
      }
    }
  }

  lemma BestGrows(records: BySource, past: seq<string>, last: string, need: nat, clock: int, best: ObsRecord)
    requires (forall s :: s in past + [last] ==> s in records) && AllDated(records, need)
    requires Eligible(records, last, need, clock) && BestIn(records, past, need, clock, best)
    ensures BestIn(records, past + [last], need, clock, if MoreRecent(records[last], best) then records[last] else best)
  {
    var s :| s in past && Eligible(records, s, need, clock) && records[s] == best;
    assert s in past + [last] && last in past + [last];
  }

  /** The choice means the same in every order: the three refusals are told apart exactly, and what is found is eligible
      and, when every time can be read, at least as recent as everything eligible. */
  lemma EveryOrderIsJustified(records: BySource, order: seq<string>, need: nat, clock: int)
    requires IsOrderOf(order, records.Keys)
    ensures Justified(records, need, clock, SelectIn(records, order, need, clock))
  {
    ScanFinds(records, order, need, clock);
    var st := ScanIn(records, order, need, clock);
    assert forall s :: Meets(records, s, need) ==> s in order;
    if st.best.Some? {
      var s :| s in order && Eligible(records, s, need, clock) && records[s] == st.best.value;
      if AllDated(records, need) { assert Newest(records, s, need, clock); }
    }
    if st.sufficient {
      var s :| s in order && Meets(records, s, need);
      assert s in records;
    }
  }

  ghost predicate TiesAgree(records: BySource, need: nat, clock: int) {
    forall s, t :: Newest(records, s, need, clock) && Newest(records, t, need, clock) ==> records[s] == records[t]
  }

  ghost predicate SameInEveryOrder(records: BySource, need: nat, clock: int) {
    forall o, p :: IsOrderOf(o, records.Keys) && IsOrderOf(p, records.Keys) ==>
      SelectIn(records, o, need, clock) == SelectIn(records, p, need, clock)
  }

  lemma {:induction false} FirstNewestStays(records: BySource, src: string, rest: seq<string>, need: nat, clock: int)
    requires Newest(records, src, need, clock) && forall s :: s in [src] + rest ==> s in records
    ensures ScanIn(records, [src] + rest, need, clock).best == Some(records[src])
    ensures ScanIn(records, [src] + rest, need, clock).sufficient
  {
    var order := [src] + rest;
    if rest == [] {
      assert order[..|order| - 1] == [];
    } else {
      var past, last := rest[..|rest| - 1], rest[|rest| - 1];
      assert order[..|order| - 1] == [src] + past && order[|order| - 1] == last;
      assert last in order;
      assert forall s :: s in [src] + past ==> s in order;
      FirstNewestStays(records, src, past, need, clock);
    }
  }

  lemma OrderStartingWith(keys: set<string>, src: string) returns (rest: seq<string>)
    requires src in keys
    ensures IsOrderOf([src] + rest, keys)
  {
    rest := SortedKeys(keys - {src});
    forall i, j | 0 <= i < j < |rest|
      ensures rest[i] != rest[j]
    {
      StrLessTrichotomy(rest[i], rest[j]);
    }
    assert forall i :: 0 <= i < |rest| ==> rest[i] in rest;
  }

  // ---- exactly when the order of the map does not matter ---------------------

  /** An eligible record that replaces every other one it meets, and is replaced by none. */
  ghost predicate Dominates(records: BySource, s: string, need: nat, clock: int) {
    && Eligible(records, s, need, clock)
    && forall u :: Eligible(records, u, need, clock) ==>
      records[u] == records[s] || MoreRecent(records[s], records[u])
  }

  ghost predicate NoneEligible(records: BySource, need: nat, clock: int) {
    forall s :: !Eligible(records, s, need, clock)
  }

  lemma MoreRecentIsStrict(a: ObsRecord, b: ObsRecord)
    ensures !(MoreRecent(a, b) && MoreRecent(b, a)) && !MoreRecent(a, a)
  {
    StrLessTrichotomy(a.observedAt.text, b.observedAt.text);
    StrLessTrichotomy(a.observedAt.text, a.observedAt.text);
  }

  /** Once a dominating record has been visited it is the best, whatever follows. */
  lemma {:induction false} DominatingIsBest(records: BySource, s: string, order: seq<string>, need: nat, clock: int)
    requires (forall u :: u in order ==> u in records) && Dominates(records, s, need, clock)
    ensures s in order ==> ScanIn(records, order, need, clock).best == Some(records[s])
    ensures var best := ScanIn(records, order, need, clock).best;
      best.Some? ==> best.value == records[s] || MoreRecent(records[s], best.value)
  {
    if order != [] {
      var past, last := order[..|order| - 1], order[|order| - 1];
      assert order == past + [last];
      assert forall u :: u in order <==> u in past || u == last;
      DominatingIsBest(records, s, past, need, clock);
      MoreRecentIsStrict(records[s], records[last]);
      MoreRecentIsStrict(records[s], records[s]);
    }
  }

  /** Starting from another eligible record that `r` does not replace, and visiting every copy of `r` next, never ends
      with `r`. */
  lemma {:induction false} NeverChosen(records: BySource, u: string, r: ObsRecord, copies: seq<string>, need: nat,
                                       clock: int)
    requires (forall s :: s in [u] + copies ==> s in records) && Eligible(records, u, need, clock)
    requires !MoreRecent(r, records[u]) && forall s :: s in copies ==> records[s] == r
    ensures ScanIn(records, [u] + copies, need, clock).best == Some(records[u])
  {
    var order := [u] + copies;
    if copies == [] {
      assert order[..|order| - 1] == [];
    } else {
      var past, last := copies[..|copies| - 1], copies[|copies| - 1];
      assert order[..|order| - 1] == [u] + past && order[|order| - 1] == last && last in order;
      assert forall s :: s in [u] + past ==> s in order;
      NeverChosen(records, u, r, past, need, clock);
    }
  }

  lemma {:induction false} StillNotChosen(records: BySource, first: seq<string>, rest: seq<string>, r: ObsRecord,
                                          need: nat, clock: int)
    requires (forall s :: s in first + rest ==> s in records) && forall s :: s in rest ==> records[s] != r
    requires forall s :: s in first ==> s in records
    requires var best := ScanIn(records, first, need, clock).best; best.Some? && best.value != r
    ensures var best := ScanIn(records, first + rest, need, clock).best; best.Some? && best.value != r
  {
    hide MoreRecent, IsFuture, EvidenceRank;
    var order := first + rest;
    if rest == [] {
      assert order == first;
    } else {
      var past, last := rest[..|rest| - 1], rest[|rest| - 1];
      assert order[..|order| - 1] == first + past && order[|order| - 1] == last && last in order && last in rest;
      assert forall s :: s in first + past ==> s in order;
      assert forall s :: s in past ==> s in rest;
      StillNotChosen(records, first, past, r, need, clock);
    }
  }

  lemma SortedKeysAreDistinct(s: set<string>)
    ensures AllDistinct(SortedKeys(s))
  {
    var ks := SortedKeys(s);
    forall i, j | 0 <= i < j < |ks|
      ensures ks[i] != ks[j]
    {
      StrLessTrichotomy(ks[i], ks[j]);
    }
  }

  predicate AllDistinct(ks: seq<string>) {
    forall i, j :: 0 <= i < j < |ks| ==> ks[i] != ks[j]
  }

  lemma JoinIsOrder(u: string, copies: seq<string>, rest: seq<string>, keys: set<string>)
    requires AllDistinct(copies) && AllDistinct(rest) && u !in copies && u !in rest
    requires forall k :: k in copies ==> k !in rest
    requires forall k :: k in keys <==> k == u || k in copies || k in rest
    ensures IsOrderOf([u] + copies + rest, keys)
  {
    var order := [u] + copies + rest;
    forall i, j | 0 <= i < j < |order|
      ensures order[i] != order[j]
    {
      PieceOf(u, copies, rest, i);
      PieceOf(u, copies, rest, j);
    }
  }

  lemma PieceOf(u: string, copies: seq<string>, rest: seq<string>, i: int)
    requires 0 <= i < 1 + |copies| + |rest|
    ensures ([u] + copies + rest)[i]
      == if i == 0 then u else if i <= |copies| then copies[i - 1] else rest[i - 1 - |copies|]
    ensures 0 < i <= |copies| ==> copies[i - 1] in copies
    ensures i > |copies| && i > 0 ==> rest[i - 1 - |copies|] in rest
  {
  }

  /** An order of the sources in which `u` comes first and the copies of `r` next. */
  lemma OrderAgainst(records: BySource, u: string, r: ObsRecord) returns (copies: seq<string>, rest: seq<string>)
    requires u in records && records[u] != r
    ensures IsOrderOf([u] + copies + rest, records.Keys)
    ensures (forall s :: s in copies ==> s in records && records[s] == r)
    ensures forall s :: s in rest ==> s in records && records[s] != r
  {
    var same := set s | s in records && records[s] == r;
    copies, rest := SortedKeys(same), SortedKeys(records.Keys - same - {u});
    SortedKeysAreDistinct(same);
    SortedKeysAreDistinct(records.Keys - same - {u});
    hide IsOrderOf;
    JoinIsOrder(u, copies, rest, records.Keys);
  }

  lemma ChosenDominates(records: BySource, s: string, u: string, need: nat, clock: int) returns (order: seq<string>)
    requires Eligible(records, s, need, clock) && Eligible(records, u, need, clock)
    requires records[u] != records[s] && !MoreRecent(records[s], records[u])
    ensures IsOrderOf(order, records.Keys) && SelectIn(records, order, need, clock) != Found(records[s])
  {
    var copies, rest := OrderAgainst(records, u, records[s]);
    order := [u] + copies + rest;
    assert forall t :: t in [u] + copies ==> t in order;
    NeverChosen(records, u, records[s], copies, need, clock);
    StillNotChosen(records, [u] + copies, rest, records[s], need, clock);
  }

  lemma DominatedIsOrderFree(records: BySource, s: string, need: nat, clock: int)
    requires Dominates(records, s, need, clock)
    ensures SameInEveryOrder(records, need, clock)
  {
    forall o | IsOrderOf(o, records.Keys)
      ensures SelectIn(records, o, need, clock) == Found(records[s])
    {
      DominatingIsBest(records, s, o, need, clock);
      EveryOrderIsJustified(records, o, need, clock);
    }
  }

  lemma NoneEligibleIsOrderFree(records: BySource, need: nat, clock: int)
    requires NoneEligible(records, need, clock)
    ensures SameInEveryOrder(records, need, clock)
  {
    forall o, p | IsOrderOf(o, records.Keys) && IsOrderOf(p, records.Keys)
      ensures SelectIn(records, o, need, clock) == SelectIn(records, p, need, clock)
    {
      EveryOrderIsJustified(records, o, need, clock);
      EveryOrderIsJustified(records, p, need, clock);
      hide SelectIn, Eligible;
      UnfoundAgree(records, need, clock, SelectIn(records, o, need, clock), SelectIn(records, p, need, clock));
    }
  }

  lemma UnfoundAgree(records: BySource, need: nat, clock: int, sel: Selection, sel': Selection)
    requires Justified(records, need, clock, sel) && Justified(records, need, clock, sel')
    requires NoneEligible(records, need, clock)
    ensures sel == sel'
  {
    FoundIffEligible(records, need, clock, sel);
    FoundIffEligible(records, need, clock, sel');
  }

  /**
   The choice is the same in every order of the map exactly when there is nothing to choose from, or one record
   replaces every different one: times that cannot be read are compared as text, and then three records can each
   replace the next.
   */
  lemma OrderIsIrrelevantExactlyWhen(records: BySource, need: nat, clock: int)
    ensures SameInEveryOrder(records, need, clock) <==>
      NoneEligible(records, need, clock) || exists s :: Dominates(records, s, need, clock)
  {
    if NoneEligible(records, need, clock) {
      NoneEligibleIsOrderFree(records, need, clock);
    } else if s :| Dominates(records, s, need, clock) {
      DominatedIsOrderFree(records, s, need, clock);
    } else {
      NothingDominates(records, need, clock);
    }
  }

  lemma NothingDominates(records: BySource, need: nat, clock: int)
    requires !NoneEligible(records, need, clock) && forall s :: !Dominates(records, s, need, clock)
    ensures !SameInEveryOrder(records, need, clock)
  {
    var t :| Eligible(records, t, need, clock);
    var o, s := SomeChosen(records, t, need, clock);
    assert !Dominates(records, s, need, clock);
    hide SelectIn, Eligible, IsOrderOf, MoreRecent;
    var u :| Eligible(records, u, need, clock) && records[u] != records[s] && !MoreRecent(records[s], records[u]);
    var p := ChosenDominates(records, s, u, need, clock);
    OrdersDiffer(records, o, p, need, clock);
  }

  lemma SomeChosen(records: BySource, t: string, need: nat, clock: int) returns (o: seq<string>, s: string)
    requires Eligible(records, t, need, clock)
    ensures IsOrderOf(o, records.Keys) && Eligible(records, s, need, clock)
    ensures SelectIn(records, o, need, clock) == Found(records[s])
  {
    var rest := OrderStartingWith(records.Keys, t);
    o := [t] + rest;
    EveryOrderIsJustified(records, o, need, clock);
    hide SelectIn, IsOrderOf, AllDated;
    FoundIffEligible(records, need, clock, SelectIn(records, o, need, clock));
    s :| Eligible(records, s, need, clock) && records[s] == SelectIn(records, o, need, clock).rec;
  }

  lemma OrdersDiffer(records: BySource, o: seq<string>, p: seq<string>, need: nat, clock: int)
    requires IsOrderOf(o, records.Keys) && IsOrderOf(p, records.Keys)
    requires SelectIn(records, o, need, clock) != SelectIn(records, p, need, clock)
    ensures !SameInEveryOrder(records, need, clock)
  {
    hide SelectIn;
  }

  lemma TiesTellOrdersApart(records: BySource, s: string, t: string, need: nat, clock: int)
    requires Newest(records, s, need, clock) && Newest(records, t, need, clock) && records[s] != records[t]
    ensures !SameInEveryOrder(records, need, clock)
  {
    hide ScanIn;
    var o := NewestCanBeChosen(records, s, need, clock);
    var p := NewestCanBeChosen(records, t, need, clock);
    assert SelectIn(records, o, need, clock) != SelectIn(records, p, need, clock);
  }

  lemma NewestCanBeChosen(records: BySource, s: string, need: nat, clock: int) returns (order: seq<string>)
    requires Newest(records, s, need, clock)
    ensures IsOrderOf(order, records.Keys) && SelectIn(records, order, need, clock) == Found(records[s])
  {
    var rest := OrderStartingWith(records.Keys, s);
    order := [s] + rest;
    FirstNewestStays(records, s, rest, need, clock);
  }

  /** With readable times this is said of the latest records: those that tie for the latest time are the same. */
  lemma DatedOrderIsIrrelevantExactlyWhen(records: BySource, need: nat, clock: int)
    requires AllDated(records, need)
    ensures SameInEveryOrder(records, need, clock) <==> TiesAgree(records, need, clock)
  {
    hide SelectIn, Justified, AllDated, MoreRecent;
    if TiesAgree(records, need, clock) {
      forall o, p | IsOrderOf(o, records.Keys) && IsOrderOf(p, records.Keys)
        ensures SelectIn(records, o, need, clock) == SelectIn(records, p, need, clock)
      {
        EveryOrderIsJustified(records, o, need, clock);
        EveryOrderIsJustified(records, p, need, clock);
        JustifiedIsUnique(records, need, clock, SelectIn(records, o, need, clock), SelectIn(records, p, need, clock));
      }
    } else {
      var s, t :| Newest(records, s, need, clock) && Newest(records, t, need, clock) && records[s] != records[t];
      TiesTellOrdersApart(records, s, t, need, clock);
    }
  }

  lemma JustifiedIsUnique(records: BySource, need: nat, clock: int, sel: Selection, sel': Selection)
    requires Justified(records, need, clock, sel) && Justified(records, need, clock, sel')
    requires AllDated(records, need) && TiesAgree(records, need, clock)
    ensures sel == sel'
  {
    FoundIffEligible(records, need, clock, sel);
    FoundIffEligible(records, need, clock, sel');
  }

  lemma FoundIffEligible(records: BySource, need: nat, clock: int, sel: Selection)
    requires Justified(records, need, clock, sel)
    ensures sel.Found? <==> exists s :: Eligible(records, s, need, clock)
  {
    if s :| Eligible(records, s, need, clock) {
      assert Meets(records, s, need) && s in records;
    }
  }

  /** Records of one moment from different sources never tie when no two times are the same. */
  lemma DistinctTimesAgree(records: BySource, need: nat, clock: int)
    requires AllDated(records, need)
    requires forall s, t :: Meets(records, s, need) && Meets(records, t, need) && s != t ==>
      records[s].observedAt.clock != records[t].observedAt.clock
    ensures SameInEveryOrder(records, need, clock)
  {
    forall s, t | Newest(records, s, need, clock) && Newest(records, t, need, clock)
      ensures records[s] == records[t]
    {
      assert !MoreRecent(records[s], records[t]) && !MoreRecent(records[t], records[s]);
    }
    DatedOrderIsIrrelevantExactlyWhen(records, need, clock);
  }

  const YES: ObsRecord := ObsRecord(Some(Scalar(Boolean(true), "true")), Stamp("1970-01-01T00:00:09Z", Some(9)), 60, "")
  const NO: ObsRecord := ObsRecord(Some(Scalar(Boolean(false), "false")), YES.observedAt, 60, "")

  lemma ReadingsRank()
    ensures EvidenceRank("probe", "") >= 1 && EvidenceRank("provider-api", "") >= 1
  {
    assert |""| != |"config-intent"| && |""| != |"platform-invariant"| && |"probe"| != |"provider-api"|;
  }

  lemma TwoReadingsTie(s: string, t: string, r: ObsRecord, r': ObsRecord, need: nat, clock: int)
    requires s != t && r.observedAt == r'.observedAt && r.observedAt.clock.Some? && !IsFuture(r, clock)
    requires EvidenceRank(s, r.derivation) >= need && EvidenceRank(t, r'.derivation) >= need
    ensures var records := map[s := r, t := r'];
      Newest(records, s, need, clock) && Newest(records, t, need, clock)
  {
    hide EvidenceRank;
    var records := map[s := r, t := r'];
    assert forall u :: u in records ==> u == s || u == t;
  }

  /** Two sources that disagree about one second: which one is believed depends on the order of the map. */
  lemma EqualTimesDependOnOrder()
    ensures !SameInEveryOrder(map["probe" := YES, "provider-api" := NO], 1, 10)
  {
    hide Newest, SameInEveryOrder, EvidenceRank;
    assert |"probe"| != |"provider-api"|;
    ReadingsRank();
    TwoReadingsTie("probe", "provider-api", YES, NO, 1, 10);
    TiesTellOrdersApart(map["probe" := YES, "provider-api" := NO], "probe", "provider-api", 1, 10);
  }

  /** A record at the static bar, with the text of its time and what it reads as. */
  function At(text: string, clock: Option<int>): ObsRecord {
    ObsRecord(None, Stamp(text, clock), 60, "")
  }

  /** Midnight of 2020 written five hours ahead, an hour after it, and an hour without minutes, which cannot be read. */
  const AHEAD := At(NIGHT + "5:00:00+05:00", Some(1577836800))
  const LATER := At(NIGHT + "1:00:00Z", Some(1577840400))
  const CUT_SHORT := At(NIGHT + "3", None)
  const NIGHT := "2020-01-01T0"
  const NEXT_DAY := 1577923200

  const CYCLE: BySource := map["a" := AHEAD, "b" := LATER, "c" := CUT_SHORT]

  lemma CycleRecords()
    ensures CYCLE["a"] == AHEAD && CYCLE["b"] == LATER && CYCLE["c"] == CUT_SHORT
    ensures forall s :: Eligible(CYCLE, s, 0, NEXT_DAY) ==> s == "a" || s == "b" || s == "c"
    ensures Eligible(CYCLE, "a", 0, NEXT_DAY) && Eligible(CYCLE, "b", 0, NEXT_DAY) && Eligible(CYCLE, "c", 0, NEXT_DAY)
  {
    assert "a"[0] != "b"[0] && "b"[0] != "c"[0] && "a"[0] != "c"[0];
  }

  lemma CycleOfTimes()
    ensures MoreRecent(LATER, AHEAD) && MoreRecent(AHEAD, CUT_SHORT) && MoreRecent(CUT_SHORT, LATER)
  {
    LessAfter(NIGHT, "3", "5:00:00+05:00");
    LessAfter(NIGHT, "1:00:00Z", "3");
  }

  lemma {:induction false} LessAfter(prefix: string, s: string, t: string)
    requires s != "" && t != "" && s[0] < t[0]
    ensures StrLess(prefix + s, prefix + t)
  {
    if prefix == "" {
      assert prefix + s == s && prefix + t == t;
    } else {
      assert (prefix + s)[1..] == prefix[1..] + s && (prefix + t)[1..] == prefix[1..] + t;
      LessAfter(prefix[1..], s, t);
    }
  }

  /** A time that cannot be read between two that can: each record replaces the next, no record is the newest, and the
      choice depends on the order of the map although no two tie. */
  lemma UnreadableTimeDependsOnOrder()
    ensures TiesAgree(CYCLE, 0, NEXT_DAY) && !SameInEveryOrder(CYCLE, 0, NEXT_DAY)
  {
    CycleRecords();
    CycleOfTimes();
    hide Eligible, MoreRecent, Newest, Dominates;
    Replaced(CYCLE, "a", "b", 0, NEXT_DAY);
    Replaced(CYCLE, "c", "a", 0, NEXT_DAY);
    Replaced(CYCLE, "b", "c", 0, NEXT_DAY);
    EligibleOnly(CYCLE, 0, NEXT_DAY);
    hide SameInEveryOrder;
    OrderIsIrrelevantExactlyWhen(CYCLE, 0, NEXT_DAY);
  }

  lemma EligibleOnly(records: BySource, need: nat, clock: int)
    ensures forall s :: Newest(records, s, need, clock) || Dominates(records, s, need, clock) ==>
      Eligible(records, s, need, clock)
  {
  }

  /** A record that another eligible one replaces is neither the newest nor dominating. */
  lemma Replaced(records: BySource, s: string, t: string, need: nat, clock: int)
    requires Eligible(records, s, need, clock) && Eligible(records, t, need, clock)
    requires MoreRecent(records[t], records[s])
    ensures !Newest(records, s, need, clock) && !Dominates(records, s, need, clock)
  {
    MoreRecentIsStrict(records[s], records[t]);
    MoreRecentIsStrict(records[s], records[s]);
  }

  // ---- verdicts --------------------------------------------------------------

  /** The bar the audit enforces: a hard security control must be witnessed. */
  function RequiredMethod(c: Constraint): string {
    if c.hard && IsSecurityPath(c.path.GetOr("")) && MethodRank(c.runtimeMethod) < MethodRank("provider-api")
    then "provider-api"
    else c.runtimeMethod
  }

  predicate IsFresh(r: ObsRecord, clock: int) {
    r.observedAt.clock.Some? && clock - r.observedAt.clock.value <= r.ttl
  }

  function JudgeRecord(ct: Contract, vocabs: Vocabularies, c: Constraint, r: ObsRecord, clock: int): Verdict {
    if !IsFresh(r, clock) then Unknown
    else match c.test
      case Exists => Satisfied
      case Absent => Violated
      case Objective => Unknown
      case Compare(op, expected) =>
        if r.value.None? then Unverifiable
        else
          var path := c.path.GetOr("");
          var observed := AsSet(ct, vocabs, c.subject, path, r.value.value);
          FromTruth(Apply(op, observed, AsSet(ct, vocabs, c.subject, path, expected)))
  }

  function JudgeSelection(ct: Contract, vocabs: Vocabularies, c: Constraint, sel: Selection, clock: int): Verdict {
    match sel
    case NoneRecorded => Unknown
    case TooWeak => Unknown
    case OnlyFuture => Unverifiable
    case Found(r) => JudgeRecord(ct, vocabs, c, r, clock)
  }

  type Observations = map<string, map<string, BySource>>

  function RecordsOf(obs: Observations, c: Constraint): BySource {
    var path := c.path.GetOr("");
    if c.subject in obs && path in obs[c.subject] then obs[c.subject][path] else map[]
  }

  /** A verdict the audit can give: the judgement on what some order of the sources selects. */
  ghost predicate Judgement(ct: Contract, vocabs: Vocabularies, obs: Observations, clock: int, c: Constraint,
                            v: Verdict) {
    exists order :: IsOrderOf(order, RecordsOf(obs, c).Keys) &&
      v == JudgeSelection(ct, vocabs, c, SelectIn(RecordsOf(obs, c), order, MethodRank(RequiredMethod(c)), clock),
        clock)
  }

  predicate Decided(v: Verdict) {
    v == Satisfied || v == Violated
  }

  /** Read no later than the audit, and no longer before it than the reading is good for. */
  predicate InForce(r: ObsRecord, clock: int) {
    exists t :: r.observedAt.clock == Some(t) && t <= clock && clock - t <= r.ttl
  }

  /** A reading of the resource itself, in force at the moment of the audit. */
  ghost predicate Witnesses(records: BySource, src: string, clock: int) {
    && src in records && (src == "probe" || src == "provider-api")
    && records[src].derivation != "config-intent" && records[src].derivation != "platform-invariant"
    && InForce(records[src], clock)
  }

  ghost predicate Witnessed(obs: Observations, c: Constraint, clock: int) {
    exists src :: Witnesses(RecordsOf(obs, c), src, clock)
  }

  lemma SecurityBar(c: Constraint)
    requires c.hard && IsSecurityPath(c.path.GetOr(""))
    ensures MethodRank(RequiredMethod(c)) >= 1
  {
    hide IsSecurityPath;
  }

  lemma StrongRecordWitnesses(records: BySource, src: string, need: nat, clock: int)
    requires Eligible(records, src, need, clock) && need >= 1 && IsFresh(records[src], clock)
    ensures Witnesses(records, src, clock)
  {
  }

  lemma DecidedOnFresh(ct: Contract, vocabs: Vocabularies, c: Constraint, sel: Selection, clock: int)
    requires Decided(JudgeSelection(ct, vocabs, c, sel, clock))
    ensures sel.Found? && IsFresh(sel.rec, clock)
  {
    hide AsSet, Apply;
  }

  /** A hard constraint on a security path is decided, either way, only by a reading that is fresh, not from the future,
      made by a probe or the provider's interface, and neither declared intent nor a platform guarantee. */
  lemma SecurityNeedsWitness(ct: Contract, vocabs: Vocabularies, obs: Observations, clock: int, c: Constraint,
                             v: Verdict)
    requires c.hard && IsSecurityPath(c.path.GetOr("")) && Judgement(ct, vocabs, obs, clock, c, v)
    ensures Decided(v) ==> Witnessed(obs, c, clock)
  {
    hide IsSecurityPath, JudgeSelection, SelectIn, RequiredMethod, Witnesses, Decided, RecordsOf, AllDated, Newest;
    SecurityBar(c);
    var records, need := RecordsOf(obs, c), MethodRank(RequiredMethod(c));
    if Decided(v) {
      var order :| IsOrderOf(order, records.Keys)
        && v == JudgeSelection(ct, vocabs, c, SelectIn(records, order, need, clock), clock);
      var sel := SelectIn(records, order, need, clock);
      EveryOrderIsJustified(records, order, need, clock);
      DecidedOnFresh(ct, vocabs, c, sel, clock);
      var src :| Eligible(records, src, need, clock) && records[src] == sel.rec;
      StrongRecordWitnesses(records, src, need, clock);
    }
  }

  predicate IdLe(c: Constraint, d: Constraint) {
    !StrLess(d.id, c.id)
  }

  lemma IdLeIsTotal()
    ensures TotalPreorder(IdLe)
  {
    forall c: Constraint, d: Constraint
      ensures IdLe(c, d) || IdLe(d, c)
    {
      StrLessTrichotomy(c.id, d.id);
    }
    forall c: Constraint, d: Constraint, e: Constraint | IdLe(c, d) && IdLe(d, e)
      ensures IdLe(c, e)
    {
      StrLessTrichotomy(c.id, d.id);
      StrLessTrichotomy(d.id, e.id);
      StrLessTrichotomy(c.id, e.id);
      if StrLess(c.id, d.id) && StrLess(d.id, e.id) { StrLessTransitive(c.id, d.id, e.id); }
    }
  }

  datatype Finding = Finding(c: Constraint, verdict: Verdict)

  predicate Failing(f: Finding) {
    f.c.hard && f.verdict != Satisfied
  }

  predicate Undecided(f: Finding) {
    f.c.hard && !Decided(f.verdict)
  }

  datatype Code = Clean | ObservationRequired | NotExecutable

  ghost predicate NoneUndecided(findings: seq<Finding>) {
    forall f :: f in findings ==> !Undecided(f)
  }

  ghost predicate NoneFailing(findings: seq<Finding>) {
    forall f :: f in findings ==> !Failing(f)
  }

  lemma OneMore(findings: seq<Finding>, f: Finding)
    ensures NoneFailing(findings + [f]) <==> NoneFailing(findings) && !Failing(f)
    ensures NoneUndecided(findings + [f]) <==> NoneUndecided(findings) && !Undecided(f)
  {
    assert forall g :: g in findings + [f] <==> g in findings || g == f;
  }

  /** Where the failing findings are. */
  function FailingAt(findings: seq<Finding>): set<int> {
    set i | 0 <= i < |findings| && findings[i].c.hard && findings[i].verdict != Satisfied
  }

  lemma FailingGrows(findings: seq<Finding>, f: Finding)
    ensures |FailingAt(findings + [f])| == |FailingAt(findings)| + if f.c.hard && f.verdict != Satisfied then 1 else 0
  {
    var n, grown := |findings|, findings + [f];
    assert FailingAt(grown) == FailingAt(findings) + if f.c.hard && f.verdict != Satisfied then {n} else {};
  }

  lemma NoneFailingAt(findings: seq<Finding>)
    ensures |FailingAt(findings)| == 0 <==> NoneFailing(findings)
  {
    if FailingAt(findings) != {} {
      var i :| i in FailingAt(findings);
      assert Failing(findings[i]) && findings[i] in findings;
    }
    if !NoneFailing(findings) {
      var f :| f in findings && Failing(f);
      var i :| 0 <= i < |findings| && findings[i] == f;
      assert i in FailingAt(findings);
    }
  }

  /** `auditCode`: missing evidence is named before failure. */
  method AuditCode(findings: seq<Finding>) returns (code: Code)
    ensures code == ObservationRequired <==>
      exists f :: f in findings && f.c.hard && (f.verdict == Unknown || f.verdict == Unverifiable)
    ensures code == Clean <==> forall f :: f in findings && f.c.hard ==> f.verdict == Satisfied
  {
    var blocking := false;
    for i := 0 to |findings|
      invariant NoneUndecided(findings[..i])
      invariant blocking <==> !NoneFailing(findings[..i])
    {
      assert findings[..i + 1] == findings[..i] + [findings[i]];
      OneMore(findings[..i], findings[i]);
      var f := findings[i];
      if f.c.hard {
        if f.verdict == Unknown || f.verdict == Unverifiable {
          assert Undecided(f) && Failing(f) && f in findings;
          return ObservationRequired;
        }
        if f.verdict == Violated { blocking := true; }
      }
    }
    assert findings[..|findings|] == findings;
    code := if blocking then NotExecutable else Clean;
  }

  /** The constraints an audit covers: an objective carries nothing to compare. */
  function Gated(cs: seq<Constraint>): seq<Constraint> {
    if cs == [] then []
    else Gated(cs[..|cs| - 1]) + if cs[|cs| - 1].test.Objective? then [] else [cs[|cs| - 1]]
  }

  function Constraints(findings: seq<Finding>): seq<Constraint> {
    seq(|findings|, i requires 0 <= i < |findings| => findings[i].c)
  }

  ghost predicate AllJudged(ct: Contract, vocabs: Vocabularies, obs: Observations, clock: int, findings: seq<Finding>) {
    forall f :: f in findings ==> Judgement(ct, vocabs, obs, clock, f.c, f.verdict)
  }

  /** One finding for each covered constraint, in the order of their ids. */
  ghost predicate Reports(ct: Contract, vocabs: Vocabularies, obs: Observations, clock: int, findings: seq<Finding>) {
    && Constraints(findings) == Gated(Sort(IdLe, ct.constraints))
    && AllJudged(ct, vocabs, obs, clock, findings)
  }

  method JudgeOne(ct: Contract, vocabs: Vocabularies, obs: Observations, clock: int, c: Constraint) returns (f: Finding)
    ensures f.c == c && Judgement(ct, vocabs, obs, clock, c, f.verdict)
  {
    var sel, order := LatestSufficient(RecordsOf(obs, c), RequiredMethod(c), clock);
    f := Finding(c, JudgeSelection(ct, vocabs, c, sel, clock));
  }

  /** `Run`, without the events it may record. */
  method Run(ct: Contract, vocabs: Vocabularies, obs: Observations, clock: int)
    returns (findings: seq<Finding>, violations: nat, code: Code)
    ensures Reports(ct, vocabs, obs, clock, findings)
    ensures violations == |set i | 0 <= i < |findings| && findings[i].c.hard && findings[i].verdict != Satisfied|
    ensures code == Clean <==> forall f :: f in findings && f.c.hard ==> f.verdict == Satisfied
    ensures code == ObservationRequired <==>
      exists f :: f in findings && f.c.hard && (f.verdict == Unknown || f.verdict == Unverifiable)
    ensures code == Clean <==> violations == 0
  {
    hide Judgement;
    findings, violations, code := [], 0, Clean;
    var ordered := Sort(IdLe, ct.constraints);
    for i := 0 to |ordered|
      invariant Constraints(findings) == Gated(ordered[..i])
      invariant AllJudged(ct, vocabs, obs, clock, findings)
      invariant violations == |FailingAt(findings)|
    {
      var c := ordered[i];
      assert ordered[..i + 1][..i] == ordered[..i];
      if c.test.Objective? { continue; }
      var f := JudgeOne(ct, vocabs, obs, clock, c);
      FailingGrows(findings, f);
      findings := findings + [f];
      if f.c.hard && f.verdict != Satisfied { violations := violations + 1; }
    }
    assert ordered[..|ordered|] == ordered;
    NoneFailingAt(findings);
    if violations > 0 { code := AuditCode(findings); }
  }

  lemma {:induction false} GatedHolds(cs: seq<Constraint>, c: Constraint)
    ensures c in Gated(cs) <==> c in cs && !c.test.Objective?
  {
    if cs != [] {
      var rest, last := cs[..|cs| - 1], cs[|cs| - 1];
      GatedHolds(rest, c);
      assert cs == rest + [last];
    }
  }

  /** An audit that reports no violation has seen every hard constraint satisfied, and every hard constraint on a
      security path satisfied by a witness. */
  lemma CleanAuditIsWitnessed(ct: Contract, vocabs: Vocabularies, obs: Observations, clock: int,
                              findings: seq<Finding>, c: Constraint)
    requires Reports(ct, vocabs, obs, clock, findings) && NoneFailing(findings)
    requires c in ct.constraints && c.hard && !c.test.Objective?
    ensures Judgement(ct, vocabs, obs, clock, c, Satisfied)
    ensures IsSecurityPath(c.path.GetOr("")) ==> Witnessed(obs, c, clock)
  {
    hide Judgement, IsSecurityPath, Witnessed;
    IdLeIsTotal();
    SortSorts(IdLe, ct.constraints);
    assert c in multiset(ct.constraints);
    assert c in multiset(Sort(IdLe, ct.constraints));
    GatedHolds(Sort(IdLe, ct.constraints), c);
    var i :| 0 <= i < |findings| && Constraints(findings)[i] == c;
    assert findings[i] in findings && !Failing(findings[i]);
    if IsSecurityPath(c.path.GetOr("")) { SecurityNeedsWitness(ct, vocabs, obs, clock, c, Satisfied); }
  }
}
