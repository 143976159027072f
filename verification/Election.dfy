/**
 Lease-based election of the master controller over one database row.
 Times are in nanoseconds; the row's `datetime` column keeps whole seconds only.
 */
module Election {

  const SECOND: int := 1_000_000_000
  const INTERVAL: int := SECOND

  datatype Option<+T> = None | Some(value: T)

  datatype Row = Row(name: string, timestamp: int)

  /** What a `datetime` column stores for the time `t`. */
  function Truncated(t: int): int {
    t / SECOND * SECOND
  }

  /** The outcome of one committed run of the transaction; the clock is read twice, for the check and for the write. */
  function ElectOnce(row: Option<Row>, uid: string, expiration: int, readAt: int, writeAt: int):
    (r: (bool, Option<Row>))
    ensures r.0 <==> row.None? || row.value.name == uid || readAt - row.value.timestamp > expiration
    ensures r.1 == if r.0 then Some(Row(uid, Truncated(writeAt))) else row
  {
    match row
    case None => (true, Some(Row(uid, Truncated(writeAt))))
    case Some(r) =>
      if r.name == uid || readAt - r.timestamp > expiration then (true, Some(Row(uid, Truncated(writeAt))))
      else (false, row)
  }

  // ---------- The protocol ----------

  /**
   `renewed[u]` is when u's last successful renewal statement was executed, `answer[u]` the result u has
   received but not yet stored, and `master[u]` the flag that u shows.
   */
  datatype State = State(now: int, row: Option<Row>, renewed: map<string, int>, answer: map<string, bool>, master: map<string, bool>)

  datatype Event =
    | Elect(uid: string, readAt: int, writeAt: int)
    | SetMaster(uid: string)
    | Pass(until: int)

  ghost predicate Enabled(s: State, e: Event) {
    match e
    case Elect(uid, readAt, writeAt) => s.now <= readAt <= writeAt
    case SetMaster(uid) => uid in s.answer
    case Pass(until) => s.now <= until
  }

  function Apply(s: State, e: Event): State
    requires e.SetMaster? ==> e.uid in s.answer
  {
    match e
    case Elect(uid, readAt, writeAt) =>
      var (elected, row) := ElectOnce(s.row, uid, 5 * INTERVAL, readAt, writeAt);
      State(writeAt, row, if elected then s.renewed[uid := writeAt] else s.renewed, s.answer[uid := elected], s.master)
    case SetMaster(uid) =>
      State(s.now, s.row, s.renewed, s.answer - {uid}, s.master[uid := s.answer[uid]])
    case Pass(until) =>
      s.(now := until)
  }

  /** No observer has run yet; the table may hold a row from before. */
  function Initial(now: int, row: Option<Row>): State {
    State(now, row, map[], map[], map[])
  }

  ghost predicate Run(states: seq<State>, events: seq<Event>) {
    && |states| == |events| + 1
    && (exists t, r :: states[0] == Initial(t, r))
    && forall i :: 0 <= i < |events| ==> Enabled(states[i], events[i]) && states[i+1] == Apply(states[i], events[i])
  }

  /** `u` shows the master flag and its last renewal was at most `window` ago. */
  ghost predicate Fresh(s: State, u: string, window: int) {
    u in s.master && s.master[u] && u in s.renewed && s.now - s.renewed[u] <= window
  }

  // ---------- Safety ----------

  /**
   The row remembers its owner's renewal to the second, and everyone else's renewal is over the lease, less the
   lost fraction.
   */
  ghost predicate Inv(s: State) {
    && (forall u :: u in s.renewed ==> s.renewed[u] <= s.now)
    && (s.row == None ==> s.renewed == map[])
    && (s.row.Some? && s.row.value.name in s.renewed ==> s.row.value.timestamp == Truncated(s.renewed[s.row.value.name]))
    && (forall u :: u in s.renewed && s.row.Some? && u != s.row.value.name ==> s.now - Truncated(s.renewed[u]) > 5 * INTERVAL)
  }

  lemma ApplyKeeps(s: State, e: Event)
    requires Inv(s) && Enabled(s, e)
    ensures Inv(Apply(s, e))
  {
  }

  lemma {:induction false} RunKeeps(states: seq<State>, events: seq<Event>, n: nat)
    requires Run(states, events) && n <= |events|
    ensures Inv(states[n])
    decreases n
  {
    if n > 0 {
      RunKeeps(states, events, n - 1);
      ApplyKeeps(states[n-1], events[n-1]);
    }
  }

  lemma TruncationLoss(t: int)
    ensures t - SECOND < Truncated(t) <= t
  {
  }

  /** In every run, at most one controller is a master whose last renewal is no more than the window ago. */
  ghost predicate Exclusive(window: int) {
    forall states: seq<State>, events: seq<Event>, n: nat, u: string, v: string ::
      Run(states, events) && n < |states| && Fresh(states[n], u, window) && Fresh(states[n], v, window) ==> u == v
  }

  lemma SafeWindow(window: int)
    requires window <= 4 * SECOND + 1
    ensures Exclusive(window)
  {
    forall states: seq<State>, events: seq<Event>, n: nat, u: string, v: string |
      Run(states, events) && n < |states| && Fresh(states[n], u, window) && Fresh(states[n], v, window)
      ensures u == v
    {
      RunKeeps(states, events, n);
      TruncationLoss(states[n].renewed[u]);
      TruncationLoss(states[n].renewed[v]);
    }
  }

  /** "A" is elected late in a second; "B" takes over when A's renewal is 4 seconds and 2 nanoseconds old. */
  lemma Takeover() returns (states: seq<State>, events: seq<Event>)
    ensures Run(states, events) && |events| == 4 && events[2].Elect? && events[3].SetMaster?
    ensures Holds(states[2], "A") && events[2].readAt - states[2].renewed["A"] == 4 * SECOND + 2
    ensures !Owns(states[4], "A")
    ensures forall window :: window >= 4 * SECOND + 2 ==> Fresh(states[4], "A", window) && Fresh(states[4], "B", window)
  {
    var e0, e1 := Elect("A", SECOND - 1, SECOND - 1), SetMaster("A");
    var e2, e3 := Elect("B", 5 * SECOND + 1, 5 * SECOND + 1), SetMaster("B");
    var s0 := Initial(0, None);
    var s1 := Apply(s0, e0);
    var s2 := Apply(s1, e1);
    var s3 := Apply(s2, e2);
    var s4 := Apply(s3, e3);
    states, events := [s0, s1, s2, s3, s4], [e0, e1, e2, e3];
    assert states[0] == Initial(0, None);
    assert "A" != "B" by { assert "A"[0] != "B"[0]; }
  }

  lemma TakeoverRun(window: int)
    requires window >= 4 * SECOND + 2
    ensures !Exclusive(window)
  {
    var states, events := Takeover();
    assert Run(states, events) && Fresh(states[4], "A", window) && Fresh(states[4], "B", window);
    assert "A" != "B" by { assert "A"[0] != "B"[0]; }
  }

  /**
   The exact reach of the election: masters are exclusive for renewals up to 4 seconds and 1 nanosecond
   old and no further, although the lease is 5 seconds, since the row keeps whole seconds only.
   */
  lemma ExclusiveExactly(window: int)
    ensures Exclusive(window) <==> window <= 4 * SECOND + 1
  {
    if window <= 4 * SECOND + 1 {
      SafeWindow(window);
    } else {
      TakeoverRun(window);
    }
  }

  // ---------- Staying master ----------

  ghost predicate Owns(s: State, u: string) {
    s.row.Some? && s.row.value.name == u
  }

  /** `u` owns the lease and shows the flag, and no answer on its way says otherwise. */
  ghost predicate Holds(s: State, u: string) {
    Owns(s, u) && u in s.renewed && u in s.master && s.master[u] && (u in s.answer ==> s.answer[u])
  }

  /** The owner of the lease is always elected again, however late it asks, and starts a new lease. */
  lemma OwnerIsElected(states: seq<State>, events: seq<Event>, n: nat)
    requires Run(states, events) && n < |events| && events[n].Elect? && Owns(states[n], events[n].uid)
    ensures var u := events[n].uid;
      && Owns(states[n+1], u) && states[n+1].row.value.timestamp == Truncated(events[n].writeAt)
      && u in states[n+1].answer && states[n+1].answer[u]
      && u in states[n+1].renewed && states[n+1].renewed[u] == events[n].writeAt
  {
    assert Enabled(states[n], events[n]) && states[n+1] == Apply(states[n], events[n]);
  }

  /** Whoever else asks during the steps from k to n finds that `u` renewed at most `window` ago. */
  ghost predicate Prompt(states: seq<State>, events: seq<Event>, u: string, k: nat, n: nat, window: int)
    requires |states| == |events| + 1 && n <= |events|
  {
    forall i :: k <= i < n && events[i].Elect? && events[i].uid != u ==>
      u in states[i].renewed && events[i].readAt - states[i].renewed[u] <= window
  }

  lemma HoldsOn(s: State, e: Event, u: string)
    requires Inv(s) && Enabled(s, e) && Holds(s, u)
    requires e.Elect? && e.uid != u ==> e.readAt - s.renewed[u] <= 4 * SECOND + 1
    ensures Holds(Apply(s, e), u)
  {
    TruncationLoss(s.renewed[u]);
  }

  /** A master that keeps renewing in time is refused by no one: it keeps the lease and the flag. */
  lemma {:induction false} StaysMaster(states: seq<State>, events: seq<Event>, u: string, k: nat, n: nat, window: int)
    requires Run(states, events) && k <= n <= |events| && Holds(states[k], u)
    requires Prompt(states, events, u, k, n, window) && window <= 4 * SECOND + 1
    ensures Holds(states[n], u)
    decreases n
  {
    if k < n {
      StaysMaster(states, events, u, k, n - 1, window);
      RunKeeps(states, events, n - 1);
      HoldsOn(states[n-1], events[n-1], u);
    }
  }

  /** Renewing within the window is always enough to stay master. */
  ghost predicate Lasting(window: int) {
    forall states: seq<State>, events: seq<Event>, u: string, k: nat, n: nat ::
      Run(states, events) && k <= n <= |events| && Holds(states[k], u) && Prompt(states, events, u, k, n, window) ==>
        Holds(states[n], u)
  }

  /** How late a master may renew: exactly up to 4 seconds and 1 nanosecond after its last renewal. */
  lemma LastingExactly(window: int)
    ensures Lasting(window) <==> window <= 4 * SECOND + 1
  {
    if window <= 4 * SECOND + 1 {
      forall states: seq<State>, events: seq<Event>, u: string, k: nat, n: nat |
        Run(states, events) && k <= n <= |events| && Holds(states[k], u) && Prompt(states, events, u, k, n, window)
        ensures Holds(states[n], u)
      {
        StaysMaster(states, events, u, k, n, window);
      }
    } else {
      var states, events := Takeover();
      assert Prompt(states, events, "A", 2, 4, window);
      assert !Holds(states[4], "A");
    }
  }

  /** `u` neither asks nor stores an answer from step i up to step j. */
  ghost predicate Quiet(events: seq<Event>, u: string, i: nat, j: nat)
    requires j <= |events|
  {
    forall k :: i <= k < j ==> events[k].Pass? || events[k].uid != u
  }

  lemma {:induction false} AnswerWaits(states: seq<State>, events: seq<Event>, u: string, i: nat, j: nat)
    requires Run(states, events) && i <= j <= |events| && u in states[i].answer && Quiet(events, u, i, j)
    ensures u in states[j].answer && states[j].answer[u] == states[i].answer[u]
    decreases j
  {
    if i < j {
      AnswerWaits(states, events, u, i, j - 1);
      assert states[j] == Apply(states[j-1], events[j-1]);
    }
  }

  /**
   The flag a controller shows after storing its answer is the verdict of its last transaction: elected
   exactly if there was no row, it owned the row, or the row was older than the lease.
   */
  lemma FlagShowsVerdict(states: seq<State>, events: seq<Event>, i: nat, j: nat)
    requires Run(states, events) && i < j < |events| && events[i].Elect? && events[j] == SetMaster(events[i].uid)
    requires Quiet(events, events[i].uid, i + 1, j)
    ensures var u, row := events[i].uid, states[i].row;
      && u in states[j+1].master
      && (states[j+1].master[u] <==>
          row.None? || row.value.name == u || events[i].readAt - row.value.timestamp > 5 * INTERVAL)
  {
    assert states[i+1] == Apply(states[i], events[i]);
    AnswerWaits(states, events, events[i].uid, i + 1, j);
    assert states[j+1] == Apply(states[j], events[j]);
  }

  // ---------- The transaction and its retries ----------

  const MAX_DEADLOCK_RETRY: nat := 5

  /** How one attempt ended: committed, a deadlock in a statement, a deadlock in the commit, or another error. */
  datatype Outcome = Committed | QueryDeadlock | CommitDeadlock | Failed

  /** One attempt: the row its locking read found, its two clock readings, and how it ended. */
  datatype Attempt = Attempt(row: Option<Row>, readAt: int, writeAt: int, outcome: Outcome)

  function Verdict(a: Attempt, uid: string, expiration: int): (elected: bool)
    ensures elected <==> a.row.None? || a.row.value.name == uid || a.readAt - a.row.value.timestamp > expiration
  {
    ElectOnce(a.row, uid, expiration, a.readAt, a.writeAt).0
  }

  /** An attempt that got as far as its commit and then lost to a deadlock, having found for `uid`. */
  predicate Leaks(a: Attempt, uid: string, expiration: int) {
    a.outcome == CommitDeadlock && Verdict(a, uid, expiration)
  }

  /**
   Retries the transaction on deadlocks.  The verdict variable is not reset between attempts, so an
   attempt whose commit failed can still decide the answer.
   */
  method ElectWithRetry(uid: string, expiration: int, attempts: seq<Attempt>) returns (elected: bool, ok: bool, n: nat)
    requires |attempts| > MAX_DEADLOCK_RETRY
    ensures n <= MAX_DEADLOCK_RETRY
    ensures forall i :: 0 <= i < n ==> attempts[i].outcome.QueryDeadlock? || attempts[i].outcome.CommitDeadlock?
    ensures ok <==> attempts[n].outcome == Committed
    ensures !ok ==> !elected && (attempts[n].outcome == Failed || n == MAX_DEADLOCK_RETRY)
    ensures ok ==> (elected <==>
      Verdict(attempts[n], uid, expiration) || exists i :: 0 <= i < n && Leaks(attempts[i], uid, expiration))
  {
    var flag := false;
    n := 0;
    while true
      invariant n <= MAX_DEADLOCK_RETRY
      invariant forall i :: 0 <= i < n ==> attempts[i].outcome.QueryDeadlock? || attempts[i].outcome.CommitDeadlock?
      invariant flag <==> exists i :: 0 <= i < n && Leaks(attempts[i], uid, expiration)
      decreases MAX_DEADLOCK_RETRY - n
    {
      var a := attempts[n];
      if (a.outcome.Committed? || a.outcome.CommitDeadlock?) && Verdict(a, uid, expiration) {
        flag := true;
      }
      if a.outcome == Committed {
        return flag, true, n;
      }
      if a.outcome == Failed || n >= MAX_DEADLOCK_RETRY {
        return false, false, n;
      }
      n := n + 1;
    }
  }

  /**
   A caller can be told that it was elected although the committed attempt left the row to another
   controller whose lease is fresh: the verdict of an attempt that never committed leaks out.
   */
  lemma VerdictCanLeak() returns (first: Attempt, second: Attempt)
    ensures Leaks(first, "A", 5 * INTERVAL) && second.outcome == Committed && first.writeAt <= second.readAt
    ensures second.row == ElectOnce(first.row, "B", 5 * INTERVAL, first.writeAt, first.writeAt).1
    ensures !Verdict(second, "A", 5 * INTERVAL)
  {
    first := Attempt(None, 0, 0, CommitDeadlock);
    second := Attempt(Some(Row("B", 0)), 1, 1, Committed);
    assert "A" != "B" by { assert "A"[0] != "B"[0]; }
  }

  // ---------- The observer ----------

  class Observer {
    const uid: string
    var master: bool

    constructor (uid: string)
      ensures this.uid == uid && !master
    {
      this.uid := uid;
      master := false;
    }

    /**
     Asks for election at every tick and stores the answer, until told to stop or until an error.
     After an error the flag keeps the last answer.
     */
    method Run(ticks: seq<Option<bool>>) returns (failed: bool)
      modifies this
      ensures failed <==> exists i :: 0 <= i < |ticks| && ticks[i] == None
      ensures master == Answer(old(master), ticks)
      ensures exists k :: LastAnswer(ticks, k) && master == if k == 0 then old(master) else ticks[k-1].value
    {
      var k := 0;
      while k < |ticks|
        invariant 0 <= k <= |ticks|
        invariant forall i :: 0 <= i < k ==> ticks[i].Some?
        invariant master == if k == 0 then old(master) else ticks[k-1].value
        invariant Answer(old(master), ticks) == Answer(master, ticks[k..])
      {
        if ticks[k] == None {
          assert LastAnswer(ticks, k);
          return true;
        }
        master := ticks[k].value;
        assert ticks[k..][1..] == ticks[k+1..];
        k := k + 1;
      }
      assert LastAnswer(ticks, k);
      failed := false;
    }
  }

  /** The first k ticks were answered, and the next one, if there is one, was an error. */
  predicate LastAnswer(ticks: seq<Option<bool>>, k: int) {
    && 0 <= k <= |ticks| && (forall i :: 0 <= i < k ==> ticks[i].Some?)
    && (k < |ticks| ==> ticks[k].None?)
  }

  /** The flag after the answers up to the first error. */
  function Answer(flag: bool, ticks: seq<Option<bool>>): bool
    decreases |ticks|
  {
    if ticks == [] || ticks[0] == None then flag else Answer(ticks[0].value, ticks[1..])
  }
}
