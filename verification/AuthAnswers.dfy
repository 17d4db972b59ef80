/**
 * What each caller of the AuthenticationInterceptor is answered, over whole runs: the history of the events
 * that concern a caller decides it.
 */
module AuthAnswers {
  import opened Bits
  import opened AuthSpec
  import opened AuthRuns

  /**
   * What has become of a caller. `Read`: a caller of retry, with what was found of its request and the
   * credential it read. `Found`: a caller of adapt that found this credential, and no reason to wait. `Waits`:
   * it has been waiting since the event of that number, until a refresh is answered (`Granted`), or fails or
   * is not started (`Refused`).
   */
  datatype Fate = Read(verdict: Verdict, credential: Option<nat>)
                | Found(credential: Option<nat>)
                | Waits(since: nat)
                | Granted(renewed: nat, since: nat)
                | Refused(error: AuthError, since: nat)

  function Since(f: Fate): nat {
    if f.Read? || f.Found? then 0 else f.since
  }

  // ----- the history of the callers

  /** The closed interval that ends now holds as many refreshes as allowed. */
  predicate RateReached(st: State, now: real) {
    && st.refreshWindow.Some?
    && CountWithin(st.refreshTimestamps, now - st.refreshWindow.value.interval, now) >= st.refreshWindow.value.maximumAttempts
  }

  /** A caller that waits for the refresh in progress, or for one of its own. */
  function Queued(w: World, id: nat, check: real, now: nat): Fate {
    if !w.st.isRefreshing && RateReached(w.st, check) then Refused(ExcessiveRefresh, now) else Waits(now)
  }

  function Adapting(w: World, id: nat, requiresRefresh: bool, check: real, now: nat): Fate {
    if !w.st.isRefreshing && (w.st.credential == None || !requiresRefresh) then Found(w.st.credential)
    else Queued(w, id, check, now)
  }

  /** Whoever waits. */
  predicate IsWaiting(w: World, id: nat) {
    id in w.st.adaptOperations || id in w.st.requestsToRetry
  }

  /** The fates after event number `now`. */
  function Told(w: World, fates: map<nat, Fate>, e: Event, now: nat): map<nat, Fate>
    requires Enabled(w, e)
  {
    match e
    case CallAdapt(id, requiresRefresh, check, _) => fates[id := Adapting(w, id, requiresRefresh, check, now)]
    case CallRetry(id, verdict) => fates[id := Read(verdict, w.st.credential)]
    case LockRetry(k, check, _) => fates[w.retrying[k].id := Queued(w, w.retrying[k].id, check, now)]
    case RunQueue(requiresRefresh, check, _) =>
      var b := w.queue[0];
      if b.Resume? && b.adapts != []
      then fates[b.adapts[0] := Adapting(w, b.adapts[0], requiresRefresh, check, now)]
      else fates
    case Refreshed(c) =>
      map id | id in fates :: if IsWaiting(w, id) then Granted(c, Since(fates[id])) else fates[id]
    case NotRefreshed(code) =>
      map id | id in fates :: if IsWaiting(w, id) then Refused(RefreshFailed(code), Since(fates[id])) else fates[id]
    case Complete(_) => fates
    case SetCredential(_) => fates
  }

  /** The fates after a run; its events are numbered from `now` on. */
  function FatesOf(w: World, fates: map<nat, Fate>, es: seq<Event>, now: nat): map<nat, Fate>
    decreases |es|
  {
    if es == [] || !Enabled(w, es[0]) then fates
    else FatesOf(Step(w, es[0]), Told(w, fates, es[0], now), es[1..], now + 1)
  }

  /** The last credential that was set, by the application or by a refresh. */
  function Latest(credential: Option<nat>, es: seq<Event>): Option<nat>
    decreases |es|
  {
    if es == [] then credential
    else match es[|es| - 1]
      case SetCredential(c) => c
      case Refreshed(c) => Some(c)
      case _ => Latest(credential, es[..|es| - 1])
  }

  // ----- what a fate deserves

  /** The one answer to a caller of adapt, or of retry. */
  predicate Deserved(o: Outcome, f: Fate, adapts: bool) {
    match o
    case Adapted(c) => adapts && f == Found(Some(c))
    case NotAdapted(e) => adapts && ((f == Found(None) && e == MissingCredential) || (f.Refused? && f.error == e))
    case Retry => !adapts && (f.Granted? || (f.Read? && f.verdict == OldCredential && f.credential.Some?))
    case DoNotRetry => !adapts && f.Read? && f.verdict in {NoResponse, OtherError}
    case DoNotRetryWithError(e) =>
      && !adapts
      && ((f.Refused? && f.error == e)
          || (f.Read? && f.verdict in {OldCredential, SameCredential} && f.credential == None && e == MissingCredential))
  }

  /** No fate deserves two answers, so that each is given exactly to those who deserve it. */
  lemma OneAnswer(o: Outcome, o': Outcome, f: Fate, adapts: bool)
    requires Deserved(o, f, adapts)
    ensures o' == o <==> Deserved(o', f, adapts)
  {
  }

  /** In the order of arrival. */
  ghost predicate InOrder(ids: seq<nat>, fates: map<nat, Fate>) {
    && (forall id | id in ids :: id in fates)
    && forall i, j | 0 <= i < j < |ids| :: Since(fates[ids[i]]) < Since(fates[ids[j]])
  }

  ghost predicate BlockDeserved(b: Block, fates: map<nat, Fate>) {
    match b
    case Refreshing(_) => true
    case Resume(adapts, retries) =>
      InOrder(adapts, fates) && InOrder(retries, fates) && forall id | id in adapts + retries :: fates[id].Granted?
    case TurnDown(error, adapts, retries) =>
      && InOrder(adapts, fates) && InOrder(retries, fates)
      && forall id | id in adapts + retries :: fates[id].Refused? && fates[id].error == error
  }

  ghost predicate HeldDeserved(h: Held<Outcome>, fates: map<nat, Fate>, adapters: set<nat>) {
    h.id in fates && Deserved(h.what, fates[h.id], h.id in adapters)
  }

  /** The places of the callers fit their fates, and those who wait together do so in order of arrival. */
  ghost predicate FatesFit(w: World, fates: map<nat, Fate>, now: nat) {
    && now > 0 && (forall id | id in fates :: Since(fates[id]) < now)
    && InOrder(w.st.adaptOperations, fates) && InOrder(w.st.requestsToRetry, fates)
    && (forall id | IsWaiting(w, id) :: fates[id].Waits?)
    && (forall b | b in w.queue :: BlockDeserved(b, fates))
    && (forall h | h in w.retrying :: h.id in fates && fates[h.id] == Read(SameCredential, Some(h.what)))
    && (forall h | h in w.due :: HeldDeserved(h, fates, w.adapters))
    && (forall h | h in w.called :: HeldDeserved(h, fates, w.adapters))
  }

  // ----- a caller is in one place

  lemma {:induction false} InNowhere(x: nat, s: seq<nat>)
    ensures In(x, s) == 0 <==> x !in s
  {
    if s != [] { InNowhere(x, s[1..]); }
  }

  lemma {:induction false} HoldsNowhere<T>(x: nat, s: seq<Held<T>>)
    requires Holds(x, s) == 0
    ensures forall h | h in s :: h.id != x
  {
    if s != [] {
      HoldsNowhere(x, s[1..]);
      forall h | h in s ensures h.id != x {
        if h != s[0] { assert h in s[1..]; }
      }
    }
  }

  predicate InBlockOf(x: nat, b: Block) {
    !b.Refreshing? && (x in b.adapts || x in b.retries)
  }

  lemma {:induction false} QueueNowhere(x: nat, q: seq<Block>)
    requires InQueue(x, q) == 0
    ensures forall b | b in q :: !InBlockOf(x, b)
  {
    if q != [] {
      QueueNowhere(x, q[1..]);
      if !q[0].Refreshing? {
        InNowhere(x, q[0].adapts);
        InNowhere(x, q[0].retries);
      }
      forall b | b in q ensures !InBlockOf(x, b) {
        if b != q[0] { assert b in q[1..]; }
      }
    }
  }

  ghost predicate Nowhere(x: nat, w: World) {
    && !IsWaiting(w, x)
    && (forall b | b in w.queue :: !InBlockOf(x, b))
    && (forall h | h in w.retrying :: h.id != x)
    && (forall h | h in w.due :: h.id != x)
    && (forall h | h in w.called :: h.id != x)
  }

  lemma NoPlaceIsNowhere(x: nat, w: World)
    requires Places(x, w) == 0
    ensures Nowhere(x, w)
  {
    InNowhere(x, w.st.adaptOperations);
    InNowhere(x, w.st.requestsToRetry);
    QueueNowhere(x, w.queue);
    HoldsNowhere(x, w.retrying);
    HoldsNowhere(x, w.due);
    HoldsNowhere(x, w.called);
  }

  /** Who waits is nowhere else. */
  lemma WaitingIsOnly(x: nat, w: World)
    requires CallersKept(w) && IsWaiting(w, x)
    ensures Nowhere(x, w.(st := w.st.(adaptOperations := [], requestsToRetry := [])))
  {
    assert Places(x, w) <= 1;
    InNowhere(x, w.st.adaptOperations);
    InNowhere(x, w.st.requestsToRetry);
    NoPlaceIsNowhere(x, w.(st := w.st.(adaptOperations := [], requestsToRetry := [])));
  }

  /** The fate of a caller who is nowhere can be told anew. */
  lemma TellElsewhere(w: World, fates: map<nat, Fate>, now: nat, x: nat, f: Fate)
    requires FatesFit(w, fates, now) && Nowhere(x, w) && Since(f) <= now
    ensures FatesFit(w, fates[x := f], now + 1)
  {
    var fates' := fates[x := f];
    forall b | b in w.queue ensures BlockDeserved(b, fates') {
      assert !InBlockOf(x, b) && BlockDeserved(b, fates);
      if !b.Refreshing? {
        SameOrder(b.adapts, fates, fates');
        SameOrder(b.retries, fates, fates');
      }
    }
    SameOrder(w.st.adaptOperations, fates, fates');
    SameOrder(w.st.requestsToRetry, fates, fates');
    forall h | h in w.due ensures HeldDeserved(h, fates', w.adapters) {
      assert HeldDeserved(h, fates, w.adapters);
    }
    forall h | h in w.called ensures HeldDeserved(h, fates', w.adapters) {
      assert HeldDeserved(h, fates, w.adapters);
    }
  }

  lemma SameOrder(ids: seq<nat>, fates: map<nat, Fate>, fates': map<nat, Fate>)
    requires InOrder(ids, fates)
    requires forall id | id in ids :: id in fates' && Since(fates'[id]) == Since(fates[id])
    ensures InOrder(ids, fates')
  {
    assert forall i | 0 <= i < |ids| :: ids[i] in ids;
  }

  lemma LastInOrder(ids: seq<nat>, fates: map<nat, Fate>, id: nat)
    requires InOrder(ids, fates) && id in fates
    requires forall x | x in ids :: Since(fates[x]) < Since(fates[id])
    ensures InOrder(ids + [id], fates)
  {
    assert forall i | 0 <= i < |ids| :: ids[i] in ids;
  }

  // ----- each step gives the fates their due

  /** Counting back from the check is counting within the interval: no timestamp is in the future. */
  lemma {:induction false} CountsAgree(ts: seq<real>, a: real, b: real)
    requires forall i | 0 <= i < |ts| :: ts[i] <= b
    ensures CountSince(ts, a) == CountWithin(ts, a, b)
    decreases |ts|
  {
    if ts != [] { CountsAgree(ts[..|ts| - 1], a, b); }
  }

  /** A refresh is refused exactly if the closed interval that ends at the check holds as many as allowed. */
  lemma RefusedAtRate(st: State, clock: real, check: real)
    requires Spaced(st, clock) && clock <= check
    ensures Excessive(st, check) <==> RateReached(st, check)
  {
    if st.refreshWindow.Some? {
      CountsAgree(st.refreshTimestamps, check - st.refreshWindow.value.interval, check);
    }
  }

  lemma JoinQueue(w: World, fates: map<nat, Fate>, now: nat, b: Block)
    requires FatesFit(w, fates, now) && BlockDeserved(b, fates)
    ensures FatesFit(w.(queue := w.queue + [b]), fates, now)
  {
  }

  lemma JoinDue(w: World, fates: map<nat, Fate>, now: nat, h: Held<Outcome>)
    requires FatesFit(w, fates, now) && HeldDeserved(h, fates, w.adapters)
    ensures FatesFit(w.(due := w.due + [h]), fates, now)
  {
  }

  /** A caller who has been told to wait, and does. */
  lemma JoinWaiting(w: World, fates: map<nat, Fate>, now: nat, id: nat, adapts: bool)
    requires FatesFit(w, fates, now + 1) && !IsWaiting(w, id) && id in fates && fates[id] == Waits(now)
    requires forall x | IsWaiting(w, x) :: Since(fates[x]) < now
    ensures FatesFit(w.(st := if adapts then w.st.(adaptOperations := w.st.adaptOperations + [id])
                              else w.st.(requestsToRetry := w.st.requestsToRetry + [id])), fates, now + 1)
  {
    if adapts {
      LastInOrder(w.st.adaptOperations, fates, id);
    } else {
      LastInOrder(w.st.requestsToRetry, fates, id);
    }
  }

  /** The state without what is no concern of the fates: the flag, the timestamps, the clock. */
  lemma SamePlaces(w: World, w': World, fates: map<nat, Fate>, now: nat)
    requires FatesFit(w, fates, now) && w'.adapters == w.adapters
    requires w'.st.adaptOperations == w.st.adaptOperations && w'.st.requestsToRetry == w.st.requestsToRetry
    requires w'.queue == w.queue && w'.retrying == w.retrying && w'.due == w.due && w'.called == w.called
    ensures FatesFit(w', fates, now)
  {
    assert forall id | IsWaiting(w', id) :: IsWaiting(w, id);
  }

  /** Joining those who wait, with a refresh of one's own if there is none. */
  lemma QueueTells(w: World, fates: map<nat, Fate>, now: nat, id: nat, adapts: bool, c: nat, check: real, stamp: real)
    requires FatesFit(w, fates, now) && Nowhere(id, w) && Spaced(w.st, w.clock) && w.clock <= check
    requires !w.st.isRefreshing ==> w.st.adaptOperations == [] && w.st.requestsToRetry == []
    ensures var queued := if adapts then w.st.(adaptOperations := w.st.adaptOperations + [id])
                          else w.st.(requestsToRetry := w.st.requestsToRetry + [id]);
      var r := if w.st.isRefreshing then (queued, []) else (var r := Refresh(queued, c, check, stamp); (r.0, [r.1]));
      FatesFit(w.(st := r.0, queue := w.queue + r.1, clock := stamp), fates[id := Queued(w, id, check, now)], now + 1)
  {
    var fates' := fates[id := Queued(w, id, check, now)];
    TellElsewhere(w, fates, now, id, Queued(w, id, check, now));
    RefusedAtRate(w.st, w.clock, check);
    var queued := if adapts then w.st.(adaptOperations := w.st.adaptOperations + [id])
                  else w.st.(requestsToRetry := w.st.requestsToRetry + [id]);
    assert Excessive(queued, check) == Excessive(w.st, check);
    if !w.st.isRefreshing && Excessive(w.st, check) {
      var b := RefreshFailure(queued, ExcessiveRefresh).1;
      assert BlockDeserved(b, fates');
      JoinQueue(w, fates', now + 1, b);
      SamePlaces(w.(queue := w.queue + [b]),
                 w.(st := RefreshFailure(queued, ExcessiveRefresh).0, queue := w.queue + [b], clock := stamp), fates', now + 1);
    } else {
      JoinWaiting(w, fates', now, id, adapts);
      var w1 := w.(st := queued);
      if w.st.isRefreshing {
        assert w.queue + [] == w.queue;
        SamePlaces(w1, w1.(clock := stamp), fates', now + 1);
      } else {
        JoinQueue(w1, fates', now + 1, Refreshing(c));
        var w2 := w1.(queue := w.queue + [Refreshing(c)]);
        SamePlaces(w2, w2.(st := Refresh(queued, c, check, stamp).0, clock := stamp), fates', now + 1);
      }
    }
  }

  lemma AdaptTells(w: World, fates: map<nat, Fate>, now: nat, id: nat, requiresRefresh: bool, check: real, stamp: real)
    requires FatesFit(w, fates, now) && Nowhere(id, w) && id in w.adapters
    requires Spaced(w.st, w.clock) && w.clock <= check
    requires !w.st.isRefreshing ==> w.st.adaptOperations == [] && w.st.requestsToRetry == []
    ensures FatesFit(DoAdapt(w, id, requiresRefresh, check, stamp),
                     fates[id := Adapting(w, id, requiresRefresh, check, now)], now + 1)
  {
    var f := Adapting(w, id, requiresRefresh, check, now);
    if f.Found? {
      TellElsewhere(w, fates, now, id, f);
      var o := if w.st.credential == None then NotAdapted(MissingCredential) else Adapted(w.st.credential.value);
      JoinDue(w, fates[id := f], now + 1, Held(id, o));
      assert w.queue + [] == w.queue;
      SamePlaces(w.(due := w.due + [Held(id, o)]), DoAdapt(w, id, requiresRefresh, check, stamp), fates[id := f], now + 1);
    } else {
      QueueTells(w, fates, now, id, true, if w.st.credential == None then 0 else w.st.credential.value, check, stamp);
    }
  }

  lemma NewCallerFits(w: World, fates: map<nat, Fate>, now: nat, id: nat, adapts: bool)
    requires CallersKept(w) && FatesFit(w, fates, now) && id !in w.issued
    ensures FatesFit(NewCaller(w, id, adapts), fates, now) && Nowhere(id, NewCaller(w, id, adapts))
  {
    assert Places(id, w) == 0;
    NoPlaceIsNowhere(id, w);
    var w' := NewCaller(w, id, adapts);
    assert forall x | IsWaiting(w', x) :: IsWaiting(w, x);
    forall h | h in w.due ensures HeldDeserved(h, fates, w'.adapters) {
      assert HeldDeserved(h, fates, w.adapters);
    }
    forall h | h in w.called ensures HeldDeserved(h, fates, w'.adapters) {
      assert HeldDeserved(h, fates, w.adapters);
    }
  }

  lemma CallRetryTells(w: World, fates: map<nat, Fate>, now: nat, id: nat, verdict: Verdict)
    requires Inv(w) && FatesFit(w, fates, now) && id !in w.issued
    ensures FatesFit(Step(w, CallRetry(id, verdict)), fates[id := Read(verdict, w.st.credential)], now + 1)
  {
    var w1, f := NewCaller(w, id, false), Read(verdict, w.st.credential);
    NewCallerFits(w, fates, now, id, false);
    TellElsewhere(w1, fates, now, id, f);
    var r := RetryUnlocked(w.st.credential, verdict);
    assert id !in w.adapters by { assert w.adapters <= w.issued; }
    if r.0.Some? { JoinDue(w1, fates[id := f], now + 1, Held(id, r.0.value)); }
  }

  /** Taking a caller out of where it is leaves it nowhere. */
  lemma LockRetryTells(w: World, fates: map<nat, Fate>, now: nat, k: nat, check: real, stamp: real)
    requires Inv(w) && FatesFit(w, fates, now) && Enabled(w, LockRetry(k, check, stamp))
    ensures FatesFit(Step(w, LockRetry(k, check, stamp)), Told(w, fates, LockRetry(k, check, stamp), now), now + 1)
  {
    var h, w1 := w.retrying[k], w.(retrying := Without(w.retrying, k));
    HoldsLess(h.id, w.retrying, k);
    assert Places(h.id, w) <= 1;
    NoPlaceIsNowhere(h.id, w1);
    assert forall x | x in w1.retrying :: x in w.retrying;
    assert FatesFit(w1, fates, now) by { assert forall id | IsWaiting(w1, id) :: IsWaiting(w, id); }
    QueueTells(w1, fates, now, h.id, false, h.what, check, stamp);
  }

  lemma CompleteTells(w: World, fates: map<nat, Fate>, now: nat, k: nat)
    requires FatesFit(w, fates, now) && k < |w.due|
    ensures FatesFit(Step(w, Complete(k)), fates, now + 1)
  {
    var w' := Step(w, Complete(k));
    assert w.due[k] in w.due;
    assert forall h | h in w'.due :: h in w.due;
    assert forall id | IsWaiting(w', id) :: IsWaiting(w, id);
  }

  /** The order of those after the first. */
  lemma RestInOrder(ids: seq<nat>, fates: map<nat, Fate>)
    requires InOrder(ids, fates) && ids != []
    ensures InOrder(ids[1..], fates)
  {
    var rest := ids[1..];
    assert forall i | 0 <= i < |rest| :: rest[i] == ids[i + 1];
  }

  /** The block at the head of the queue replaced, and perhaps a caller called. */
  lemma HeadTells(w: World, fates: map<nat, Fate>, now: nat, b: Block, more: seq<Held<Outcome>>)
    requires FatesFit(w, fates, now) && w.queue != [] && BlockDeserved(b, fates)
    requires forall h | h in more :: HeldDeserved(h, fates, w.adapters)
    ensures FatesFit(w.(queue := [b] + w.queue[1..], called := w.called + more), fates, now)
  {
    var w' := w.(queue := [b] + w.queue[1..], called := w.called + more);
    assert forall x | x in w'.queue :: x == b || x in w.queue;
    assert forall id | IsWaiting(w', id) :: IsWaiting(w, id);
  }

  lemma HeadDone(w: World, fates: map<nat, Fate>, now: nat)
    requires FatesFit(w, fates, now) && w.queue != []
    ensures FatesFit(w.(queue := w.queue[1..]), fates, now)
  {
    var w' := w.(queue := w.queue[1..]);
    assert forall x | x in w'.queue :: x in w.queue;
    assert forall id | IsWaiting(w', id) :: IsWaiting(w, id);
  }

  lemma ResumeTells(w: World, fates: map<nat, Fate>, now: nat, requiresRefresh: bool, check: real, stamp: real)
    requires Inv(w) && FatesFit(w, fates, now) && w.clock <= check <= stamp
    requires w.queue != [] && w.queue[0].Resume? && w.queue[0].adapts != []
    ensures FatesFit(DoRunQueue(w, requiresRefresh, check, stamp),
                     fates[w.queue[0].adapts[0] := Adapting(w, w.queue[0].adapts[0], requiresRefresh, check, now)], now + 1)
  {
    var b, rest := w.queue[0], w.queue[1..];
    var id, b1 := b.adapts[0], Resume(b.adapts[1..], b.retries);
    var w1 := w.(queue := [b1] + rest);
    assert BlockDeserved(b, fates);
    RestInOrder(b.adapts, fates);
    HeadTells(w, fates, now, b1, []);
    assert w.called + [] == w.called;
    assert Places(id, w) <= 1;
    QueueHead(id, rest, b1);
    NoPlaceIsNowhere(id, w1);
    assert BlockFits(b, w.adapters, w.issued - w.adapters);
    AdaptTells(w1, fates, now, id, requiresRefresh, check, stamp);
  }

  /** The callers of retry in a block that resumes. */
  lemma RetriesTell(w: World, fates: map<nat, Fate>, now: nat, requiresRefresh: bool, check: real, stamp: real)
    requires Inv(w) && FatesFit(w, fates, now)
    requires w.queue != [] && w.queue[0].Resume? && w.queue[0].adapts == []
    ensures FatesFit(DoRunQueue(w, requiresRefresh, check, stamp), fates, now)
  {
    var b := w.queue[0];
    assert BlockDeserved(b, fates) && BlockFits(b, w.adapters, w.issued - w.adapters);
    if b.retries == [] {
      HeadDone(w, fates, now);
    } else {
      RestInOrder(b.retries, fates);
      assert b.retries[0] in b.adapts + b.retries;
      HeadTells(w, fates, now, Resume([], b.retries[1..]), [Held(b.retries[0], Retry)]);
    }
  }

  /** A block that turns down. */
  lemma TurnDownTells(w: World, fates: map<nat, Fate>, now: nat, requiresRefresh: bool, check: real, stamp: real)
    requires Inv(w) && FatesFit(w, fates, now) && w.queue != [] && w.queue[0].TurnDown?
    ensures FatesFit(DoRunQueue(w, requiresRefresh, check, stamp), fates, now)
  {
    var b := w.queue[0];
    assert BlockDeserved(b, fates) && BlockFits(b, w.adapters, w.issued - w.adapters);
    if b.adapts != [] {
      RestInOrder(b.adapts, fates);
      assert b.adapts[0] in b.adapts + b.retries;
      HeadTells(w, fates, now, TurnDown(b.error, b.adapts[1..], b.retries), [Held(b.adapts[0], NotAdapted(b.error))]);
    } else if b.retries != [] {
      RestInOrder(b.retries, fates);
      assert b.retries[0] in b.adapts + b.retries;
      HeadTells(w, fates, now, TurnDown(b.error, [], b.retries[1..]), [Held(b.retries[0], DoNotRetryWithError(b.error))]);
    } else {
      HeadDone(w, fates, now);
    }
  }

  lemma RunQueueTells(w: World, fates: map<nat, Fate>, now: nat, requiresRefresh: bool, check: real, stamp: real)
    requires Inv(w) && FatesFit(w, fates, now) && Enabled(w, RunQueue(requiresRefresh, check, stamp))
    ensures FatesFit(DoRunQueue(w, requiresRefresh, check, stamp),
                     Told(w, fates, RunQueue(requiresRefresh, check, stamp), now), now + 1)
  {
    var w' := DoRunQueue(w, requiresRefresh, check, stamp);
    match w.queue[0]
    case Refreshing(_) =>
      HeadDone(w, fates, now);
      SamePlaces(w.(queue := w.queue[1..]), w', fates, now);
      Later(w', fates, now);
    case Resume(adapts, retries) =>
      if adapts != [] {
        ResumeTells(w, fates, now, requiresRefresh, check, stamp);
      } else {
        RetriesTell(w, fates, now, requiresRefresh, check, stamp);
        Later(w', fates, now);
      }
    case TurnDown(_, _, _) =>
      TurnDownTells(w, fates, now, requiresRefresh, check, stamp);
      Later(w', fates, now);
  }

  /** Who is anywhere else does not wait. */
  ghost predicate Apart(w: World) {
    && (forall b, id | b in w.queue && InBlockOf(id, b) :: !IsWaiting(w, id))
    && (forall h | h in w.retrying :: !IsWaiting(w, h.id))
    && (forall h | h in w.due :: !IsWaiting(w, h.id))
    && (forall h | h in w.called :: !IsWaiting(w, h.id))
  }

  lemma OthersAreApart(w: World)
    requires CallersKept(w)
    ensures Apart(w)
  {
    forall x | IsWaiting(w, x) ensures Nowhere(x, w.(st := w.st.(adaptOperations := [], requestsToRetry := []))) {
      WaitingIsOnly(x, w);
    }
  }

  /** A refresh is answered: the fates of all who wait, and of nobody else, are told. */
  lemma AnswerTells(w: World, fates: map<nat, Fate>, now: nat, fates': map<nat, Fate>, r: (State, Block))
    requires CallersKept(w) && FatesFit(w, fates, now) && w.outstanding > 0
    requires fates'.Keys == fates.Keys
    requires forall id | id in fates :: Since(fates'[id]) == Since(fates[id]) && (!IsWaiting(w, id) ==> fates'[id] == fates[id])
    requires r.0.adaptOperations == [] && r.0.requestsToRetry == [] && BlockDeserved(r.1, fates')
    ensures FatesFit(DoAnswer(w, r), fates', now)
  {
    OthersAreApart(w);
    forall b | b in w.queue ensures BlockDeserved(b, fates') {
      assert BlockDeserved(b, fates);
      if !b.Refreshing? {
        assert forall id | id in b.adapts + b.retries :: InBlockOf(id, b);
        SameOrder(b.adapts, fates, fates');
        SameOrder(b.retries, fates, fates');
      }
    }
    forall h | h in w.due ensures HeldDeserved(h, fates', w.adapters) {
      assert HeldDeserved(h, fates, w.adapters);
    }
    forall h | h in w.called ensures HeldDeserved(h, fates', w.adapters) {
      assert HeldDeserved(h, fates, w.adapters);
    }
  }

  lemma RefreshedTells(w: World, fates: map<nat, Fate>, now: nat, c: nat)
    requires CallersKept(w) && FatesFit(w, fates, now) && w.outstanding > 0
    ensures FatesFit(Step(w, Refreshed(c)), Told(w, fates, Refreshed(c), now), now)
  {
    var fates' := Told(w, fates, Refreshed(c), now);
    SameOrder(w.st.adaptOperations, fates, fates');
    SameOrder(w.st.requestsToRetry, fates, fates');
    AnswerTells(w, fates, now, fates', RefreshSucceeded(w.st, c));
  }

  lemma NotRefreshedTells(w: World, fates: map<nat, Fate>, now: nat, code: nat)
    requires CallersKept(w) && FatesFit(w, fates, now) && w.outstanding > 0
    ensures FatesFit(Step(w, NotRefreshed(code)), Told(w, fates, NotRefreshed(code), now), now)
  {
    var fates' := Told(w, fates, NotRefreshed(code), now);
    SameOrder(w.st.adaptOperations, fates, fates');
    SameOrder(w.st.requestsToRetry, fates, fates');
    AnswerTells(w, fates, now, fates', RefreshFailure(w.st, RefreshFailed(code)));
  }

  lemma Later(w: World, fates: map<nat, Fate>, now: nat)
    requires FatesFit(w, fates, now)
    ensures FatesFit(w, fates, now + 1)
  {
  }

  lemma StepTells(w: World, fates: map<nat, Fate>, e: Event, now: nat)
    requires Inv(w) && FatesFit(w, fates, now) && Enabled(w, e)
    ensures FatesFit(Step(w, e), Told(w, fates, e, now), now + 1)
  {
    match e
    case CallAdapt(id, requiresRefresh, check, stamp) =>
      NewCallerFits(w, fates, now, id, true);
      AdaptTells(NewCaller(w, id, true), fates, now, id, requiresRefresh, check, stamp);
    case CallRetry(id, verdict) => CallRetryTells(w, fates, now, id, verdict);
    case LockRetry(k, check, stamp) => LockRetryTells(w, fates, now, k, check, stamp);
    case Complete(k) => CompleteTells(w, fates, now, k);
    case RunQueue(requiresRefresh, check, stamp) => RunQueueTells(w, fates, now, requiresRefresh, check, stamp);
    case Refreshed(c) =>
      RefreshedTells(w, fates, now, c);
      Later(Step(w, e), Told(w, fates, e, now), now);
    case NotRefreshed(code) =>
      NotRefreshedTells(w, fates, now, code);
      Later(Step(w, e), Told(w, fates, e, now), now);
    case SetCredential(_) =>
      SamePlaces(w, Step(w, e), fates, now);
      Later(Step(w, e), fates, now);
  }

  // ----- whole runs

  lemma StepKeepsInv(w: World, e: Event)
    requires Inv(w) && Enabled(w, e)
    ensures Inv(Step(w, e))
  {
    StepKeepsAllCallers(w, e);
    StepKeepsOneRefresh(w, e);
    StepKeepsSpaced(w, e);
    StepKeepsKinds(w, e);
  }

  lemma {:induction false} RunsTell(w: World, fates: map<nat, Fate>, es: seq<Event>, now: nat, w': World)
    requires Inv(w) && FatesFit(w, fates, now) && Runs(w, es, w')
    ensures FatesFit(w', FatesOf(w, fates, es, now), now + |es|)
    decreases |es|
  {
    if es != [] {
      StepTells(w, fates, es[0], now);
      StepKeepsInv(w, es[0]);
      RunsTell(Step(w, es[0]), Told(w, fates, es[0], now), es[1..], now + 1, w');
    }
  }

  lemma {:induction false} LatestLater(credential: Option<nat>, e: Event, es: seq<Event>)
    ensures Latest(credential, [e] + es) == Latest(Latest(credential, [e]), es)
    decreases |es|
  {
    var all := [e] + es;
    if es == [] {
      assert all == [e];
    } else {
      assert all[..|all| - 1] == [e] + es[..|es| - 1];
      LatestLater(credential, e, es[..|es| - 1]);
    }
  }

  lemma {:induction false} CredentialIsLatest(w: World, es: seq<Event>, w': World)
    requires Runs(w, es, w')
    ensures w'.st.credential == Latest(w.st.credential, es)
    decreases |es|
  {
    if es != [] {
      assert Step(w, es[0]).st.credential == Latest(w.st.credential, [es[0]]);
      CredentialIsLatest(Step(w, es[0]), es[1..], w');
      LatestLater(w.st.credential, es[0], es[1..]);
      assert [es[0]] + es[1..] == es;
    }
  }

  /**
   * After every run of a new interceptor, whoever has been called was given the answer that its history
   * deserves; those who wait, or have been handed to a block, do so in order of arrival; and the credential is
   * the last one that was set.
   */
  lemma EveryAnswer(credential: Option<nat>, window: Option<RefreshWindow>, clock: real, es: seq<Event>, w: World)
    requires Runs(Start(credential, window, clock), es, w)
    ensures var fates := FatesOf(Start(credential, window, clock), map[], es, 1);
      && (forall h | h in w.called :: HeldDeserved(h, fates, w.adapters))
      && InOrder(w.st.adaptOperations, fates) && InOrder(w.st.requestsToRetry, fates)
      && (forall b | b in w.queue :: BlockDeserved(b, fates))
    ensures w.st.credential == Latest(credential, es)
  {
    RunsTell(Start(credential, window, clock), map[], es, 1, w);
    CredentialIsLatest(Start(credential, window, clock), es, w);
  }
}
