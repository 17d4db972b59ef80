/**
 * Runs of the AuthenticationInterceptor: any interleaving of its critical sections, of the blocks on its
 * serial queue, of refresh results, and of completions being called.
 */
module AuthRuns {
  import opened Bits
  import opened AuthSpec

  /** Something kept for a caller. */
  datatype Held<T> = Held(id: nat, what: T)

  /**
   * `retrying`: callers of retry who have read the credential and not yet taken the lock. `due`: completions
   * about to be called. `outstanding`: refreshes under way; `answered`: how many have been answered.
   * `issued`: all callers so far; `adapters`: those of adapt.
   */
  datatype World = World(
    st: State,
    queue: seq<Block>,
    retrying: seq<Held<nat>>,
    due: seq<Held<Outcome>>,
    called: seq<Held<Outcome>>,
    outstanding: nat,
    answered: nat,
    issued: set<nat>,
    adapters: set<nat>,
    clock: real)

  datatype Event = CallAdapt(id: nat, requiresRefresh: bool, check: real, stamp: real)
                 | CallRetry(id: nat, verdict: Verdict)
                 | LockRetry(k: nat, check: real, stamp: real)
                 | Complete(k: nat)
                 | RunQueue(requiresRefresh: bool, check: real, stamp: real)
                 | Refreshed(credential: nat)
                 | NotRefreshed(code: nat)
                 | SetCredential(value: Option<nat>)

  function Start(credential: Option<nat>, window: Option<RefreshWindow>, clock: real): World {
    World(State(credential, false, [], window, [], []), [], [], [], [], 0, 0, {}, {}, clock)
  }

  function Without<T>(s: seq<T>, k: nat): seq<T>
    requires k < |s|
  {
    s[..k] + s[k + 1..]
  }

  /** Every caller is a new one, the clock does not go back, and each refresh is answered once. */
  predicate Enabled(w: World, e: Event) {
    match e
    case CallAdapt(id, _, check, stamp) => id !in w.issued && w.clock <= check <= stamp
    case CallRetry(id, _) => id !in w.issued
    case LockRetry(k, check, stamp) => k < |w.retrying| && w.clock <= check <= stamp
    case Complete(k) => k < |w.due|
    case RunQueue(_, check, stamp) => w.queue != [] && w.clock <= check <= stamp
    case Refreshed(_) => w.outstanding > 0
    case NotRefreshed(_) => w.outstanding > 0
    case SetCredential(_) => true
  }

  function NewCaller(w: World, id: nat, adapts: bool): World {
    w.(issued := w.issued + {id}, adapters := if adapts then w.adapters + {id} else w.adapters)
  }

  /** adapt for a caller who has been counted. */
  function DoAdapt(w: World, id: nat, requiresRefresh: bool, check: real, stamp: real): World {
    var r := AdaptLocked(w.st, id, requiresRefresh, check, stamp);
    w.(st := r.0, queue := w.queue + r.1, clock := stamp,
       due := if r.2.Some? then w.due + [Held(id, r.2.value)] else w.due)
  }

  function DoCallRetry(w: World, id: nat, verdict: Verdict): World {
    var r := RetryUnlocked(w.st.credential, verdict);
    match r.0
    case Some(outcome) => w.(due := w.due + [Held(id, outcome)])
    case None => w.(retrying := w.retrying + [Held(id, r.1)])
  }

  function DoLockRetry(w: World, k: nat, check: real, stamp: real): World
    requires k < |w.retrying|
  {
    var r := RetryLocked(w.st, w.retrying[k].id, w.retrying[k].what, check, stamp);
    w.(st := r.0, queue := w.queue + r.1, retrying := Without(w.retrying, k), clock := stamp)
  }

  /** The block at the head of the queue takes its next step, or is done. */
  function DoRunQueue(w: World, requiresRefresh: bool, check: real, stamp: real): World
    requires w.queue != []
  {
    var rest := w.queue[1..];
    match w.queue[0]
    case Refreshing(_) => w.(queue := rest, outstanding := w.outstanding + 1)
    case Resume(adapts, retries) =>
      if adapts != [] then
        DoAdapt(w.(queue := [Resume(adapts[1..], retries)] + rest), adapts[0], requiresRefresh, check, stamp)
      else if retries != [] then
        w.(queue := [Resume([], retries[1..])] + rest, called := w.called + [Held(retries[0], Retry)])
      else w.(queue := rest)
    case TurnDown(error, adapts, retries) =>
      if adapts != [] then
        w.(queue := [TurnDown(error, adapts[1..], retries)] + rest,
           called := w.called + [Held(adapts[0], NotAdapted(error))])
      else if retries != [] then
        w.(queue := [TurnDown(error, [], retries[1..])] + rest,
           called := w.called + [Held(retries[0], DoNotRetryWithError(error))])
      else w.(queue := rest)
  }

  function DoAnswer(w: World, r: (State, Block)): World
    requires w.outstanding > 0
  {
    w.(st := r.0, queue := w.queue + [r.1], outstanding := w.outstanding - 1, answered := w.answered + 1)
  }

  function Step(w: World, e: Event): World
    requires Enabled(w, e)
  {
    match e
    case CallAdapt(id, requiresRefresh, check, stamp) =>
      DoAdapt(NewCaller(w, id, true), id, requiresRefresh, check, stamp)
    case CallRetry(id, verdict) => DoCallRetry(NewCaller(w, id, false), id, verdict)
    case LockRetry(k, check, stamp) => DoLockRetry(w, k, check, stamp)
    case Complete(k) => w.(due := Without(w.due, k), called := w.called + [w.due[k]])
    case RunQueue(requiresRefresh, check, stamp) => DoRunQueue(w, requiresRefresh, check, stamp)
    case Refreshed(credential) => DoAnswer(w, RefreshSucceeded(w.st, credential))
    case NotRefreshed(code) => DoAnswer(w, RefreshFailure(w.st, RefreshFailed(code)))
    case SetCredential(credential) => w.(st := w.st.(credential := credential))
  }

  /** The events lead from `w` to `w'`. */
  predicate Runs(w: World, es: seq<Event>, w': World)
    decreases |es|
  {
    if es == [] then w == w' else Enabled(w, es[0]) && Runs(Step(w, es[0]), es[1..], w')
  }

  // ----- where callers are

  /** How often caller `x` occurs in a list. */
  function In(x: nat, s: seq<nat>): nat {
    if s == [] then 0 else (if s[0] == x then 1 else 0) + In(x, s[1..])
  }

  function Holds<T>(x: nat, s: seq<Held<T>>): nat {
    if s == [] then 0 else (if s[0].id == x then 1 else 0) + Holds(x, s[1..])
  }

  function InBlock(x: nat, b: Block): nat {
    if b.Refreshing? then 0 else In(x, b.adapts) + In(x, b.retries)
  }

  function InQueue(x: nat, q: seq<Block>): nat {
    if q == [] then 0 else InBlock(x, q[0]) + InQueue(x, q[1..])
  }

  /** In the two waiting queues. */
  function Waiting(x: nat, st: State): nat {
    In(x, st.adaptOperations) + In(x, st.requestsToRetry)
  }

  /** In how many places caller `x` is. */
  function Places(x: nat, w: World): nat {
    Waiting(x, w.st) + InQueue(x, w.queue) + Holds(x, w.retrying) + Holds(x, w.due) + Holds(x, w.called)
  }

  function One(b: bool): nat {
    if b then 1 else 0
  }

  /** The refreshes that are dispatched. */
  function Refreshes(q: seq<Block>): nat {
    if q == [] then 0 else One(q[0].Refreshing?) + Refreshes(q[1..])
  }

  lemma {:induction false} InMore(x: nat, s: seq<nat>, y: nat)
    ensures In(x, s + [y]) == In(x, s) + One(x == y)
  {
    if s != [] {
      assert (s + [y])[1..] == s[1..] + [y];
      InMore(x, s[1..], y);
    }
  }

  lemma {:induction false} HoldsMore<T>(x: nat, s: seq<Held<T>>, h: Held<T>)
    ensures Holds(x, s + [h]) == Holds(x, s) + One(x == h.id)
  {
    if s != [] {
      assert (s + [h])[1..] == s[1..] + [h];
      HoldsMore(x, s[1..], h);
    }
  }

  lemma {:induction false} HoldsLess<T>(x: nat, s: seq<Held<T>>, k: nat)
    requires k < |s|
    ensures Holds(x, s) == Holds(x, Without(s, k)) + One(x == s[k].id)
  {
    if k > 0 {
      assert Without(s, k)[1..] == Without(s[1..], k - 1);
      HoldsLess(x, s[1..], k - 1);
    } else {
      assert Without(s, 0) == s[1..];
    }
  }

  lemma {:induction false} QueueMore(x: nat, q: seq<Block>, b: Block)
    ensures InQueue(x, q + [b]) == InQueue(x, q) + InBlock(x, b)
    ensures Refreshes(q + [b]) == Refreshes(q) + One(b.Refreshing?)
  {
    if q != [] {
      assert (q + [b])[1..] == q[1..] + [b];
      QueueMore(x, q[1..], b);
    }
  }

  lemma QueueHead(x: nat, q: seq<Block>, b: Block)
    ensures InQueue(x, [b] + q) == InBlock(x, b) + InQueue(x, q)
    ensures Refreshes([b] + q) == One(b.Refreshing?) + Refreshes(q)
  {
  }

  // ----- no completion is lost or doubled

  /** Every caller is in exactly one place, and nobody else is anywhere. */
  ghost predicate CallersKept(w: World) {
    forall x: nat :: Places(x, w) == One(x in w.issued)
  }

  lemma RefreshKeepsCallers(x: nat, st: State, credential: nat, check: real, stamp: real)
    ensures var r := Refresh(st, credential, check, stamp); Waiting(x, r.0) + InBlock(x, r.1) == Waiting(x, st)
  {
  }

  /** adapt puts its caller into a waiting queue, or gives an outcome. */
  lemma AdaptKeepsCallers(x: nat, st: State, q: seq<Block>, id: nat, requiresRefresh: bool, check: real, stamp: real)
    ensures var r := AdaptLocked(st, id, requiresRefresh, check, stamp);
      Waiting(x, r.0) + InQueue(x, q + r.1) + One(r.2.Some? && x == id)
      == Waiting(x, st) + InQueue(x, q) + One(x == id)
  {
    var queued := st.(adaptOperations := st.adaptOperations + [id]);
    InMore(x, st.adaptOperations, id);
    assert q + [] == q;
    if !st.isRefreshing && st.credential.Some? && requiresRefresh {
      RefreshKeepsCallers(x, queued, st.credential.value, check, stamp);
      QueueMore(x, q, Refresh(queued, st.credential.value, check, stamp).1);
    }
  }

  lemma RetryKeepsCallers(x: nat, st: State, q: seq<Block>, id: nat, credential: nat, check: real, stamp: real)
    ensures var r := RetryLocked(st, id, credential, check, stamp);
      Waiting(x, r.0) + InQueue(x, q + r.1) == Waiting(x, st) + InQueue(x, q) + One(x == id)
  {
    var queued := st.(requestsToRetry := st.requestsToRetry + [id]);
    InMore(x, st.requestsToRetry, id);
    assert q + [] == q;
    if !st.isRefreshing {
      RefreshKeepsCallers(x, queued, credential, check, stamp);
      QueueMore(x, q, Refresh(queued, credential, check, stamp).1);
    }
  }

  lemma DoAdaptKeepsCallers(x: nat, w: World, id: nat, requiresRefresh: bool, check: real, stamp: real)
    ensures Places(x, DoAdapt(w, id, requiresRefresh, check, stamp)) == Places(x, w) + One(x == id)
  {
    var r := AdaptLocked(w.st, id, requiresRefresh, check, stamp);
    AdaptKeepsCallers(x, w.st, w.queue, id, requiresRefresh, check, stamp);
    if r.2.Some? { HoldsMore(x, w.due, Held(id, r.2.value)); }
  }

  lemma RunQueueKeepsCallers(x: nat, w: World, requiresRefresh: bool, check: real, stamp: real)
    requires w.queue != []
    ensures Places(x, DoRunQueue(w, requiresRefresh, check, stamp)) == Places(x, w)
  {
    var rest := w.queue[1..];
    match w.queue[0]
    case Refreshing(_) =>
    case Resume(adapts, retries) =>
      if adapts != [] {
        QueueHead(x, rest, Resume(adapts[1..], retries));
        DoAdaptKeepsCallers(x, w.(queue := [Resume(adapts[1..], retries)] + rest), adapts[0],
                            requiresRefresh, check, stamp);
      } else if retries != [] {
        QueueHead(x, rest, Resume([], retries[1..]));
        HoldsMore(x, w.called, Held(retries[0], Retry));
      }
    case TurnDown(error, adapts, retries) =>
      if adapts != [] {
        QueueHead(x, rest, TurnDown(error, adapts[1..], retries));
        HoldsMore(x, w.called, Held(adapts[0], NotAdapted(error)));
      } else if retries != [] {
        QueueHead(x, rest, TurnDown(error, [], retries[1..]));
        HoldsMore(x, w.called, Held(retries[0], DoNotRetryWithError(error)));
      }
  }

  /** A step moves callers around; only a new one is added. */
  lemma StepKeepsCallers(x: nat, w: World, e: Event)
    requires Enabled(w, e)
    ensures Places(x, Step(w, e)) == Places(x, w) + One((e.CallAdapt? || e.CallRetry?) && x == e.id)
  {
    match e
    case CallAdapt(id, requiresRefresh, check, stamp) =>
      DoAdaptKeepsCallers(x, NewCaller(w, id, true), id, requiresRefresh, check, stamp);
    case CallRetry(id, verdict) =>
      var r := RetryUnlocked(w.st.credential, verdict);
      if r.0.Some? { HoldsMore(x, w.due, Held(id, r.0.value)); } else { HoldsMore(x, w.retrying, Held(id, r.1)); }
    case LockRetry(k, check, stamp) =>
      HoldsLess(x, w.retrying, k);
      RetryKeepsCallers(x, w.st, w.queue, w.retrying[k].id, w.retrying[k].what, check, stamp);
    case Complete(k) =>
      HoldsLess(x, w.due, k);
      HoldsMore(x, w.called, w.due[k]);
    case RunQueue(requiresRefresh, check, stamp) =>
      RunQueueKeepsCallers(x, w, requiresRefresh, check, stamp);
    case Refreshed(credential) =>
      QueueMore(x, w.queue, RefreshSucceeded(w.st, credential).1);
    case NotRefreshed(code) =>
      QueueMore(x, w.queue, RefreshFailure(w.st, RefreshFailed(code)).1);
    case SetCredential(_) =>
  }

  lemma StepKeepsAllCallers(w: World, e: Event)
    requires Enabled(w, e) && CallersKept(w)
    ensures CallersKept(Step(w, e))
  {
    var w' := Step(w, e);
    forall x: nat ensures Places(x, w') == One(x in w'.issued) {
      StepKeepsCallers(x, w, e);
      assert Places(x, w) == One(x in w.issued);
    }
  }

  // ----- answers of the right kind

  /** adapt answers with a request or an error, retry with what is to be done. */
  predicate AnswersAdapt(o: Outcome) {
    o.Adapted? || o.NotAdapted?
  }

  ghost predicate Fits(h: Held<Outcome>, adapters: set<nat>, retriers: set<nat>) {
    if AnswersAdapt(h.what) then h.id in adapters else h.id in retriers
  }

  ghost predicate Among(ids: seq<nat>, s: set<nat>) {
    forall id | id in ids :: id in s
  }

  ghost predicate BlockFits(b: Block, adapters: set<nat>, retriers: set<nat>) {
    b.Refreshing? || (Among(b.adapts, adapters) && Among(b.retries, retriers))
  }

  /** Callers of adapt and of retry are kept apart wherever they wait. */
  ghost predicate KindsKept(w: World) {
    var adapters, retriers := w.adapters, w.issued - w.adapters;
    && adapters <= w.issued
    && Among(w.st.adaptOperations, adapters) && Among(w.st.requestsToRetry, retriers)
    && (forall b | b in w.queue :: BlockFits(b, adapters, retriers))
    && (forall h | h in w.retrying :: h.id in retriers)
    && (forall h | h in w.due + w.called :: Fits(h, adapters, retriers))
  }

  lemma NewCallerKeepsKinds(w: World, id: nat, adapts: bool)
    requires KindsKept(w) && id !in w.issued
    ensures KindsKept(NewCaller(w, id, adapts))
  {
  }

  lemma DoAdaptKeepsKinds(w: World, id: nat, requiresRefresh: bool, check: real, stamp: real)
    requires KindsKept(w) && id in w.adapters
    ensures KindsKept(DoAdapt(w, id, requiresRefresh, check, stamp))
  {
  }

  lemma RunQueueKeepsKinds(w: World, requiresRefresh: bool, check: real, stamp: real)
    requires KindsKept(w) && w.queue != []
    ensures KindsKept(DoRunQueue(w, requiresRefresh, check, stamp))
  {
    var b := w.queue[0];
    assert BlockFits(b, w.adapters, w.issued - w.adapters);
    if b.Resume? && b.adapts != [] {
      DoAdaptKeepsKinds(w.(queue := [Resume(b.adapts[1..], b.retries)] + w.queue[1..]), b.adapts[0],
                        requiresRefresh, check, stamp);
    }
  }

  lemma StepKeepsKinds(w: World, e: Event)
    requires Enabled(w, e) && KindsKept(w)
    ensures KindsKept(Step(w, e))
  {
    match e
    case CallAdapt(id, requiresRefresh, check, stamp) =>
      NewCallerKeepsKinds(w, id, true);
      DoAdaptKeepsKinds(NewCaller(w, id, true), id, requiresRefresh, check, stamp);
    case CallRetry(id, verdict) =>
      NewCallerKeepsKinds(w, id, false);
    case LockRetry(k, check, stamp) =>
      assert w.retrying[k] in w.retrying;
    case Complete(k) =>
      assert w.due[k] in w.due;
    case RunQueue(requiresRefresh, check, stamp) =>
      RunQueueKeepsKinds(w, requiresRefresh, check, stamp);
    case Refreshed(_) =>
    case NotRefreshed(_) =>
    case SetCredential(_) =>
  }

  // ----- one refresh at a time

  /** isRefreshing tells whether a refresh is dispatched or under way, and there is never a second one. */
  ghost predicate OneRefresh(w: World) {
    var now := One(w.st.isRefreshing);
    && Refreshes(w.queue) + w.outstanding == now
    && |w.st.refreshTimestamps| == w.answered + now
    && (!w.st.isRefreshing ==> w.st.adaptOperations == [] && w.st.requestsToRetry == [])
  }

  lemma DoAdaptKeepsOneRefresh(w: World, id: nat, requiresRefresh: bool, check: real, stamp: real)
    requires OneRefresh(w)
    ensures OneRefresh(DoAdapt(w, id, requiresRefresh, check, stamp))
  {
    var r := AdaptLocked(w.st, id, requiresRefresh, check, stamp);
    assert w.queue + [] == w.queue;
    if r.1 != [] { QueueMore(0, w.queue, r.1[0]); }
  }

  lemma SameRefreshes(q: seq<Block>, b: Block)
    requires q != [] && !q[0].Refreshing? && !b.Refreshing?
    ensures Refreshes([b] + q[1..]) == Refreshes(q) == Refreshes(q[1..])
  {
  }

  lemma RunQueueKeepsOneRefresh(w: World, requiresRefresh: bool, check: real, stamp: real)
    requires OneRefresh(w) && w.queue != []
    ensures OneRefresh(DoRunQueue(w, requiresRefresh, check, stamp))
  {
    var b := w.queue[0];
    if b.Resume? && b.adapts != [] {
      var b' := Resume(b.adapts[1..], b.retries);
      SameRefreshes(w.queue, b');
      DoAdaptKeepsOneRefresh(w.(queue := [b'] + w.queue[1..]), b.adapts[0], requiresRefresh, check, stamp);
    } else if b.Resume? {
      if b.retries != [] { SameRefreshes(w.queue, Resume([], b.retries[1..])); }
    } else if b.TurnDown? {
      if b.adapts != [] { SameRefreshes(w.queue, TurnDown(b.error, b.adapts[1..], b.retries)); }
      else if b.retries != [] { SameRefreshes(w.queue, TurnDown(b.error, [], b.retries[1..])); }
    }
  }

  lemma StepKeepsOneRefresh(w: World, e: Event)
    requires Enabled(w, e) && OneRefresh(w)
    ensures OneRefresh(Step(w, e))
  {
    match e
    case CallAdapt(id, requiresRefresh, check, stamp) =>
      DoAdaptKeepsOneRefresh(NewCaller(w, id, true), id, requiresRefresh, check, stamp);
    case CallRetry(id, verdict) =>
    case LockRetry(k, check, stamp) =>
      var r := RetryLocked(w.st, w.retrying[k].id, w.retrying[k].what, check, stamp);
      assert w.queue + [] == w.queue;
      if r.1 != [] { QueueMore(0, w.queue, r.1[0]); }
    case Complete(k) =>
    case RunQueue(requiresRefresh, check, stamp) =>
      RunQueueKeepsOneRefresh(w, requiresRefresh, check, stamp);
    case Refreshed(credential) =>
      QueueMore(0, w.queue, RefreshSucceeded(w.st, credential).1);
    case NotRefreshed(code) =>
      QueueMore(0, w.queue, RefreshFailure(w.st, RefreshFailed(code)).1);
    case SetCredential(_) =>
  }

  // ----- the rate of refreshes

  /** A timestamp is more than an interval after the one `maximumAttempts` before it. */
  ghost predicate Sparse(ts: seq<real>, w: RefreshWindow) {
    && (w.maximumAttempts <= 0 ==> ts == [])
    && forall i, j | 0 <= i < |ts| && 0 <= j < |ts| && i + w.maximumAttempts <= j :: ts[i] < ts[j] - w.interval
  }

  /** Timestamps in order, none in the future, and `maximumAttempts` of them farther apart than the interval. */
  ghost predicate Spaced(st: State, clock: real) {
    var ts := st.refreshTimestamps;
    && (forall i, j | 0 <= i <= j < |ts| :: ts[i] <= ts[j])
    && (forall i | 0 <= i < |ts| :: ts[i] <= clock)
    && (st.refreshWindow.Some? ==> Sparse(ts, st.refreshWindow.value))
  }

  /** In ordered timestamps, everything after a recent one is recent. */
  lemma {:induction false} RecentCount(ts: seq<real>, min: real, i: nat)
    requires forall i, j | 0 <= i <= j < |ts| :: ts[i] <= ts[j]
    requires i < |ts| && min <= ts[i]
    ensures CountSince(ts, min) >= |ts| - i
    decreases |ts|
  {
    if i < |ts| - 1 { RecentCount(ts[..|ts| - 1], min, i); }
  }

  lemma NextIsSparse(ts: seq<real>, w: RefreshWindow, check: real, stamp: real)
    requires Sparse(ts, w) && check <= stamp && CountSince(ts, check - w.interval) < w.maximumAttempts
    requires forall i, j | 0 <= i <= j < |ts| :: ts[i] <= ts[j]
    ensures Sparse(ts + [stamp], w)
  {
    var ts' := ts + [stamp];
    forall i | 0 <= i < |ts'| && i + w.maximumAttempts <= |ts| ensures ts'[i] < stamp - w.interval {
      assert i < |ts|;
      if check - w.interval <= ts[i] { RecentCount(ts, check - w.interval, i); }
    }
  }

  lemma RefreshKeepsSpaced(st: State, credential: nat, clock: real, check: real, stamp: real)
    requires Spaced(st, clock) && clock <= check <= stamp
    ensures Spaced(Refresh(st, credential, check, stamp).0, stamp)
  {
    if !Excessive(st, check) && st.refreshWindow.Some? {
      NextIsSparse(st.refreshTimestamps, st.refreshWindow.value, check, stamp);
    }
  }

  lemma StepKeepsSpaced(w: World, e: Event)
    requires Enabled(w, e) && Spaced(w.st, w.clock)
    ensures Spaced(Step(w, e).st, Step(w, e).clock)
  {
    match e
    case CallAdapt(id, requiresRefresh, check, stamp) =>
      AdaptKeepsSpaced(w.st, id, requiresRefresh, w.clock, check, stamp);
    case LockRetry(k, check, stamp) =>
      var queued := w.st.(requestsToRetry := w.st.requestsToRetry + [w.retrying[k].id]);
      RefreshKeepsSpaced(queued, w.retrying[k].what, w.clock, check, stamp);
    case RunQueue(requiresRefresh, check, stamp) =>
      var b := w.queue[0];
      if b.Resume? && b.adapts != [] { AdaptKeepsSpaced(w.st, b.adapts[0], requiresRefresh, w.clock, check, stamp); }
    case _ =>
  }

  lemma AdaptKeepsSpaced(st: State, id: nat, requiresRefresh: bool, clock: real, check: real, stamp: real)
    requires Spaced(st, clock) && clock <= check <= stamp
    ensures Spaced(AdaptLocked(st, id, requiresRefresh, check, stamp).0, stamp)
  {
    var queued := st.(adaptOperations := st.adaptOperations + [id]);
    if st.credential.Some? { RefreshKeepsSpaced(queued, st.credential.value, clock, check, stamp); }
  }

  /** How many refreshes were started from time `a` to time `b`. */
  function CountWithin(ts: seq<real>, a: real, b: real): nat {
    if ts == [] then 0
    else CountWithin(ts[..|ts| - 1], a, b) + (if a <= ts[|ts| - 1] <= b then 1 else 0)
  }

  /** How many were started in a closed interval that begins at `a`. */
  function StartedIn(ts: seq<real>, a: real, interval: real): nat {
    CountWithin(ts, a, a + interval)
  }

  lemma {:induction false} EarlyOnes(ts: seq<real>, k: nat, a: real, b: real)
    requires k <= |ts| && forall i | 0 <= i < k :: ts[i] < a
    ensures CountWithin(ts, a, b) <= |ts| - k
  {
    if ts != [] { EarlyOnes(ts[..|ts| - 1], if k < |ts| then k else k - 1, a, b); }
  }

  /** No interval of the length of the window holds more refreshes than allowed. */
  lemma {:induction false} RateIsBounded(ts: seq<real>, w: RefreshWindow, a: real)
    requires w.maximumAttempts >= 0 && Sparse(ts, w)
    ensures CountWithin(ts, a, a + w.interval) <= w.maximumAttempts
  {
    var n := |ts|;
    if n > 0 {
      if a <= ts[n - 1] <= a + w.interval {
        EarlyOnes(ts, if n <= w.maximumAttempts then 0 else n - w.maximumAttempts, a, a + w.interval);
      } else {
        RateIsBounded(ts[..n - 1], w, a);
      }
    }
  }

  // ----- whole runs

  ghost predicate Inv(w: World) {
    CallersKept(w) && OneRefresh(w) && Spaced(w.st, w.clock) && KindsKept(w)
  }

  lemma {:induction false} RunsKeepInv(w: World, es: seq<Event>, w': World)
    requires Inv(w) && Runs(w, es, w')
    ensures Inv(w') && w'.st.refreshWindow == w.st.refreshWindow
    decreases |es|
  {
    if es != [] {
      StepKeepsAllCallers(w, es[0]);
      StepKeepsOneRefresh(w, es[0]);
      StepKeepsSpaced(w, es[0]);
      StepKeepsKinds(w, es[0]);
      RunsKeepInv(Step(w, es[0]), es[1..], w');
    }
  }

  /** What holds after every run of a new interceptor. */
  lemma EveryRun(credential: Option<nat>, window: Option<RefreshWindow>, clock: real, es: seq<Event>, w: World)
    requires Runs(Start(credential, window, clock), es, w)
    ensures CallersKept(w)
    ensures OneRefresh(w)
    ensures forall h | h in w.called :: h.id in w.issued && (AnswersAdapt(h.what) <==> h.id in w.adapters)
    ensures window.Some? && window.value.maximumAttempts >= 0 ==>
      forall a: real :: StartedIn(w.st.refreshTimestamps, a, window.value.interval) <= window.value.maximumAttempts
  {
    RunsKeepInv(Start(credential, window, clock), es, w);
    forall h | h in w.called ensures h.id in w.issued && (AnswersAdapt(h.what) <==> h.id in w.adapters) {
      assert h in w.due + w.called;
    }
    if window.Some? && window.value.maximumAttempts >= 0 {
      forall a: real
        ensures StartedIn(w.st.refreshTimestamps, a, window.value.interval) <= window.value.maximumAttempts
      {
        RateIsBounded(w.st.refreshTimestamps, window.value, a);
      }
    }
  }

  /** When nothing is left to happen, every caller has been called, once. */
  lemma NothingIsForgotten(credential: Option<nat>, window: Option<RefreshWindow>, clock: real,
                           es: seq<Event>, w: World)
    requires Runs(Start(credential, window, clock), es, w)
    requires w.queue == [] && w.retrying == [] && w.due == [] && w.outstanding == 0
    ensures forall x: nat :: Holds(x, w.called) == One(x in w.issued)
  {
    RunsKeepInv(Start(credential, window, clock), es, w);
  }

  // ----- a refresh can be redundant

  /** The event starts a refresh of credential `c`. */
  predicate StartsRefresh(w: World, e: Event, c: nat)
    requires Enabled(w, e)
  {
    var w' := Step(w, e);
    && |w'.st.refreshTimestamps| > |w.st.refreshTimestamps|
    && w'.queue != [] && w'.queue[|w'.queue| - 1] == Refreshing(c)
  }

  /**
   * A credential that has been replaced is refreshed exactly by a caller of retry who read it before it was
   * replaced and takes the lock while no refresh is in progress, if the rate allows one.
   */
  lemma WhenRefreshIsRedundant(w: World, e: Event, c: nat)
    requires Enabled(w, e)
    ensures StartsRefresh(w, e, c) && w.st.credential != Some(c)
        <==> && e.LockRetry? && w.retrying[e.k].what == c && w.st.credential != Some(c)
             && !w.st.isRefreshing && !Excessive(w.st, e.check)
  {
  }

  /** Two callers of retry have read credential 1, and nothing else has happened. */
  predicate BothHaveRead(w: World) {
    && w.st == State(Some(1), false, [], None, [], [])
    && w.retrying == [Held(10, 1), Held(20, 1)]
    && w.queue == [] && w.answered == 0 && w.clock == 0.0
  }

  /** The first one gets it refreshed. */
  lemma FirstRefreshes(w: World) returns (es: seq<Event>, w': World)
    requires BothHaveRead(w)
    ensures Runs(w, es, w') && w'.retrying == [Held(20, 1)] && w'.queue == [Resume([], [10])]
    ensures w'.st.credential == Some(2) && !w'.st.isRefreshing && w'.st.refreshWindow == None
    ensures w'.answered == 1 && w'.clock == 0.0
  {
    var w3 := Step(w, LockRetry(0, 0.0, 0.0));
    assert w3.retrying == [Held(20, 1)] && w3.queue == [Refreshing(1)] && w3.st.requestsToRetry == [10];
    var w4 := Step(w3, RunQueue(false, 0.0, 0.0));
    w' := Step(w4, Refreshed(2));
    es := RunsBack(w', [], w', w4, Refreshed(2));
    es := RunsBack(w', es, w4, w3, RunQueue(false, 0.0, 0.0));
    es := RunsBack(w', es, w3, w, LockRetry(0, 0.0, 0.0));
  }

  lemma {:induction false} RunsOn(w: World, es: seq<Event>, w': World, e: Event)
    requires Runs(w, es, w') && Enabled(w', e)
    ensures Runs(w, es + [e], Step(w', e))
    decreases |es|
  {
    if es == [] {
      assert [e][1..] == [];
    } else {
      assert (es + [e])[1..] == es[1..] + [e];
      RunsOn(Step(w, es[0]), es[1..], w', e);
    }
  }

  /** Two callers whose requests failed with credential 1: the second refreshes it although 2 has replaced it. */
  lemma RedundantRefresh()
    ensures exists es, w ::
      && Runs(Start(Some(1), None, 0.0), es, w)
      && w.st.credential == Some(2) && w.queue == [Resume([], [10]), Refreshing(1)] && w.answered == 1
  {
    var w0 := Start(Some(1), None, 0.0);
    var w1 := Step(w0, CallRetry(10, SameCredential));
    var w2 := Step(w1, CallRetry(20, SameCredential));
    var es, w5 := FirstRefreshes(w2);
    es := RunsBack(w5, es, w2, w1, CallRetry(20, SameCredential));
    es := RunsBack(w5, es, w1, w0, CallRetry(10, SameCredential));
    RunsOn(w0, es, w5, LockRetry(0, 0.0, 0.0));
  }

  /** A run with one more event at its beginning. */
  lemma RunsBack(end: World, es: seq<Event>, w: World, before: World, e: Event) returns (all: seq<Event>)
    requires Runs(w, es, end) && Enabled(before, e) && w == Step(before, e)
    ensures Runs(before, all, end)
  {
    all := [e] + es;
    assert all[1..] == es;
  }
}
