/** The server-sent event stream of one job (tradegraph/apps/api/routers/jobs.py:313-346): a generator
    that polls committed state and reports what changed. */
module Stream {
  import opened Helpers
  import opened JobProtocol

  /** What one poll reads. */
  datatype Poll = Missing | Seen(status: Status, progress: Option<string>)
  datatype Event = ProgressEvent(text: string) | StatusEvent(status: Status) | ErrorEvent

  predicate Ended(status: Status) { status.Succeeded? || status.Failed? }

  predicate Stops(p: Poll) { p.Missing? || Ended(p.status) }

  method EventSource(polls: seq<Poll>) returns (events: seq<Event>, used: nat)
    ensures used == UpTo(polls) && events == Streamed(polls[..used])
  {
    hide UpTo, Streamed, Due, LatestDetail;
    events := [];
    NothingDue();
    var lastStatus: Option<Status>, lastProgress: Option<string> := None, None;
    used := 0;
    while used < |polls|
      invariant 0 <= used <= |polls|
      invariant forall i :: 0 <= i < used ==> !Stops(polls[i])
      invariant events == Streamed(polls[..used])
      invariant lastStatus == if used == 0 then None else Some(polls[used - 1].status)
      invariant lastProgress == LatestDetail(polls[..used])
    {
      var current := polls[used];
      assert polls[..used + 1][..used] == polls[..used] && polls[..used] + [current] == polls[..used + 1];
      UpToFirst(polls, used);
      DueNext(polls[..used], current);
      LatestNext(polls[..used], current);
      StreamedNext(polls[..used + 1]);
      ghost var sent := events;
      used := used + 1;
      if current.Missing? {
        events := events + [ErrorEvent];
        return;
      }
      if current.progress != None && current.progress != lastProgress {
        events := events + [ProgressEvent(current.progress.value)];
        lastProgress := current.progress;
      }
      if Some(current.status) != lastStatus {
        events := events + [StatusEvent(current.status)];
        lastStatus := Some(current.status);
      }
      assert events == sent + Due(polls[..used]);
      if Ended(current.status) {
        return;
      }
    }
    UpToFirst(polls, used);
  }

  /** How many polls the stream makes: up to and including the first that stops it. */
  function UpTo(polls: seq<Poll>): (n: nat)
    ensures n <= |polls|
  {
    if polls == [] then 0 else if Stops(polls[0]) then 1 else 1 + UpTo(polls[1..])
  }

  lemma {:induction false} UpToFirst(polls: seq<Poll>, i: nat)
    requires i <= |polls| && forall k :: 0 <= k < i ==> !Stops(polls[k])
    ensures i == |polls| ==> UpTo(polls) == i
    ensures i < |polls| && Stops(polls[i]) ==> UpTo(polls) == i + 1
  {
    if polls != [] && i > 0 {
      forall k | 0 <= k < i - 1 ensures !Stops(polls[1..][k]) { assert polls[1..][k] == polls[k + 1]; }
      UpToFirst(polls[1..], i - 1);
    }
  }

  /** The last detail any of these polls read that was not null. */
  function LatestDetail(polls: seq<Poll>): Option<string> {
    if polls == [] then None
    else
      var p := polls[|polls| - 1];
      if p.Seen? && p.progress.Some? then p.progress else LatestDetail(polls[..|polls| - 1])
  }

  /** The events due to the last of these polls, given those before it: a detail that is new since the
      last non-null one, then a status unlike the previous poll's. */
  function Due(polls: seq<Poll>): seq<Event>
    requires polls != []
  {
    var n := |polls| - 1;
    match polls[n]
    case Missing => [ErrorEvent]
    case Seen(status, progress) =>
      (if progress.Some? && progress != LatestDetail(polls[..n]) then [ProgressEvent(progress.value)] else [])
      + (if n > 0 && polls[n - 1].Seen? && polls[n - 1].status == status then [] else [StatusEvent(status)])
  }

  function Streamed(polls: seq<Poll>): seq<Event> {
    if polls == [] then [] else Streamed(polls[..|polls| - 1]) + Due(polls)
  }

  lemma NothingDue()
    ensures Streamed([]) == [] && LatestDetail([]) == None
  {
  }

  lemma LatestNext(before: seq<Poll>, current: Poll)
    ensures LatestDetail(before + [current]) ==
              if current.Seen? && current.progress.Some? then current.progress else LatestDetail(before)
  {
    assert (before + [current])[..|before|] == before;
  }

  /** What is due to the next poll, in terms of the last status and the last detail read before it. */
  lemma DueNext(before: seq<Poll>, current: Poll)
    ensures Due(before + [current]) ==
              if current.Missing? then [ErrorEvent]
              else (if current.progress.Some? && current.progress != LatestDetail(before)
                    then [ProgressEvent(current.progress.value)] else [])
                   + (if before != [] && before[|before| - 1].Seen? && before[|before| - 1].status == current.status
                      then [] else [StatusEvent(current.status)])
  {
    hide LatestDetail;
    var all := before + [current];
    assert all[..|before|] == before;
    assert all[|before|] == current;
    assert before != [] ==> all[|before| - 1] == before[|before| - 1];
  }

  lemma StreamedNext(polls: seq<Poll>)
    requires polls != []
    ensures Streamed(polls) == Streamed(polls[..|polls| - 1]) + Due(polls)
  {
  }

  // ---- What a client can rely on ---------------------------------------------------------------

  function Statuses(events: seq<Event>): seq<Status> {
    if events == [] then []
    else Statuses(events[..|events| - 1])
         + if events[|events| - 1].StatusEvent? then [events[|events| - 1].status] else []
  }

  function Details(events: seq<Event>): seq<string> {
    if events == [] then []
    else Details(events[..|events| - 1])
         + if events[|events| - 1].ProgressEvent? then [events[|events| - 1].text] else []
  }

  function PolledStatuses(polls: seq<Poll>): seq<Status> {
    if polls == [] then []
    else PolledStatuses(polls[..|polls| - 1])
         + if polls[|polls| - 1].Seen? then [polls[|polls| - 1].status] else []
  }

  function PolledDetails(polls: seq<Poll>): seq<string> {
    if polls == [] then []
    else
      var p := polls[|polls| - 1];
      PolledDetails(polls[..|polls| - 1]) + if p.Seen? && p.progress.Some? then [p.progress.value] else []
  }

  /** Consecutive repeats removed. */
  function Collapse<T(==)>(s: seq<T>): seq<T> {
    if s == [] then []
    else
      var n := |s| - 1;
      if n > 0 && s[n - 1] == s[n] then Collapse(s[..n]) else Collapse(s[..n]) + [s[n]]
  }

  /** The polls of one stream: only the last may stop it. */
  ghost predicate OneStream(polls: seq<Poll>) {
    forall i :: 0 <= i < |polls| - 1 ==> !Stops(polls[i])
  }

  lemma {:induction false} StatusesConcat(a: seq<Event>, b: seq<Event>)
    ensures Statuses(a + b) == Statuses(a) + Statuses(b)
    ensures Details(a + b) == Details(a) + Details(b)
  {
    if b == [] {
      assert a + b == a;
    } else {
      assert (a + b)[..|a + b| - 1] == a + b[..|b| - 1];
      StatusesConcat(a, b[..|b| - 1]);
    }
  }

  lemma {:induction false} LatestDetailIsLast(polls: seq<Poll>)
    ensures LatestDetail(polls) == if PolledDetails(polls) == [] then None
                                   else Some(PolledDetails(polls)[|PolledDetails(polls)| - 1])
  {
    if polls != [] { LatestDetailIsLast(polls[..|polls| - 1]); }
  }

  lemma {:induction false} PolledStatusesAll(polls: seq<Poll>)
    requires forall i :: 0 <= i < |polls| ==> polls[i].Seen?
    ensures |PolledStatuses(polls)| == |polls|
    ensures forall i :: 0 <= i < |polls| ==> PolledStatuses(polls)[i] == polls[i].status
  {
    if polls != [] { PolledStatusesAll(polls[..|polls| - 1]); }
  }

  lemma OneEvent(e: Event)
    ensures Statuses([e]) == if e.StatusEvent? then [e.status] else []
    ensures Details([e]) == if e.ProgressEvent? then [e.text] else []
  {
    assert [e][..0] == [];
  }

  lemma DueParts(polls: seq<Poll>)
    requires polls != []
    ensures var n, p := |polls| - 1, polls[|polls| - 1];
            && Statuses(Due(polls)) == (if p.Missing? || (n > 0 && polls[n - 1].Seen? && polls[n - 1].status == p.status)
                                        then [] else [p.status])
            && Details(Due(polls)) == (if p.Seen? && p.progress.Some? && p.progress != LatestDetail(polls[..n])
                                       then [p.progress.value] else [])
  {
    var n, p := |polls| - 1, polls[|polls| - 1];
    if p.Missing? {
      OneEvent(ErrorEvent);
    } else {
      var a := if p.progress.Some? && p.progress != LatestDetail(polls[..n]) then [ProgressEvent(p.progress.value)] else [];
      var b := if n > 0 && polls[n - 1].Seen? && polls[n - 1].status == p.status then [] else [StatusEvent(p.status)];
      StatusesConcat(a, b);
      if a != [] { OneEvent(a[0]); }
      if b != [] { OneEvent(b[0]); }
    }
  }

  lemma CollapseNext<T>(s: seq<T>, x: T)
    ensures Collapse(s + [x]) == if s != [] && s[|s| - 1] == x then Collapse(s) else Collapse(s) + [x]
  {
    assert (s + [x])[..|s|] == s;
  }

  lemma StatusesGrow(polls: seq<Poll>)
    requires polls != []
    ensures var before, p := polls[..|polls| - 1], polls[|polls| - 1];
            && Statuses(Streamed(polls)) == Statuses(Streamed(before)) + Statuses(Due(polls))
            && Details(Streamed(polls)) == Details(Streamed(before)) + Details(Due(polls))
            && PolledStatuses(polls) == (if p.Seen? then PolledStatuses(before) + [p.status] else PolledStatuses(before))
            && PolledDetails(polls) == (if p.Seen? && p.progress.Some? then PolledDetails(before) + [p.progress.value]
                                        else PolledDetails(before))
  {
    StatusesConcat(Streamed(polls[..|polls| - 1]), Due(polls));
  }

  lemma {:induction false} FaithfulStatuses(polls: seq<Poll>)
    requires OneStream(polls)
    ensures Statuses(Streamed(polls)) == Collapse(PolledStatuses(polls))
  {
    hide Due, Streamed, Collapse;
    if polls == [] {
      NothingDue();
      assert Collapse<Status>([]) == [] by { CollapseEmpty<Status>(); }
    } else {
      var n, p := |polls| - 1, polls[|polls| - 1];
      var before := polls[..n];
      FaithfulStatuses(before);
      StatusesGrow(polls);
      PolledStatusesAll(before);
      DueParts(polls);
      assert Statuses(Streamed(before)) + [] == Statuses(Streamed(before));
      if p.Seen? { CollapseNext(PolledStatuses(before), p.status); }
    }
  }

  lemma {:induction false} FaithfulDetails(polls: seq<Poll>)
    ensures Details(Streamed(polls)) == Collapse(PolledDetails(polls))
  {
    hide Due, Streamed, Collapse, Details, Statuses, PolledDetails, PolledStatuses, LatestDetail;
    if polls == [] {
      NoDetails();
    } else {
      var p := polls[|polls| - 1];
      var before := polls[..|polls| - 1];
      FaithfulDetails(before);
      StatusesGrow(polls);
      LatestDetailIsLast(before);
      DueParts(polls);
      assert Details(Streamed(before)) + [] == Details(Streamed(before));
      if p.Seen? && p.progress.Some? { CollapseNext(PolledDetails(before), p.progress.value); }
    }
  }

  lemma NoDetails()
    ensures Details(Streamed([])) == Collapse(PolledDetails([]))
  {
    NothingDue();
  }

  lemma CollapseEmpty<T>()
    ensures Collapse<T>([]) == []
  {
  }

  /** Faithfulness: the status events are the polled statuses with consecutive repeats removed, and the
      progress events likewise the polled details that were not null. */
  lemma {:induction false} Faithful(polls: seq<Poll>)
    requires OneStream(polls)
    ensures Statuses(Streamed(polls)) == Collapse(PolledStatuses(polls))
    ensures Details(Streamed(polls)) == Collapse(PolledDetails(polls))
  {
    FaithfulStatuses(polls);
    FaithfulDetails(polls);
  }

  /** The end: after the poll that reads a terminal status the last event is that status, everything
      the job ever said has been sent before it, and the stream makes no further poll. */
  lemma {:induction false} EndsWithStatus(polls: seq<Poll>)
    requires polls != [] && OneStream(polls)
    requires polls[|polls| - 1].Seen? && Ended(polls[|polls| - 1].status)
    ensures var events := Streamed(polls);
            && events != [] && events[|events| - 1] == StatusEvent(polls[|polls| - 1].status)
            && Details(events[..|events| - 1]) == Collapse(PolledDetails(polls))
    ensures UpTo(polls) == |polls|
  {
    var n := |polls| - 1;
    Faithful(polls);
    UpToFirst(polls, n);
    var events, last := Streamed(polls), StatusEvent(polls[n].status);
    assert n > 0 ==> !Stops(polls[n - 1]);
    assert Due(polls)[|Due(polls)| - 1] == last;
    assert events[..|events| - 1] + [last] == events;
    StatusesConcat(events[..|events| - 1], [last]);
    OneEvent(last);
  }

  /** The stream polls until a job is missing or has ended, and not beyond. */
  lemma {:induction false} UpToExactly(polls: seq<Poll>)
    ensures var n := UpTo(polls);
            && (forall i :: 0 <= i < n - 1 ==> polls[i].Seen? && polls[i].status in {Pending, Running})
            && (n < |polls| ==> n > 0 && (polls[n - 1].Missing? || polls[n - 1].status in {Succeeded, Failed}))
  {
    if polls != [] && !Stops(polls[0]) { UpToExactly(polls[1..]); }
  }

  /** An error is sent exactly when the last poll finds no job, and then it is the last event; and what was sent for
      earlier polls stands before what is sent for later ones. */
  lemma {:induction false} ErrorExactly(polls: seq<Poll>)
    requires forall i :: 0 <= i < |polls| - 1 ==> polls[i].Seen?
    ensures var events := Streamed(polls);
            && (polls != [] ==> Streamed(polls[..|polls| - 1]) <= events)
            && (forall i :: 0 <= i < |events| && events[i].ErrorEvent? ==> i == |events| - 1)
            && ((events != [] && events[|events| - 1].ErrorEvent?) <==> (polls != [] && polls[|polls| - 1].Missing?))
  {
    if polls != [] {
      var n := |polls| - 1;
      var before, due := Streamed(polls[..n]), Due(polls);
      ErrorExactly(polls[..n]);
      StreamedNext(polls);
      DueErrors(polls);
      hide Streamed, Due, LatestDetail;
      assert n > 0 ==> polls[n - 1].Seen?;
      assert before + [] == before;
      assert before != [] ==> !before[|before| - 1].ErrorEvent?;
    }
  }

  lemma DueErrors(polls: seq<Poll>)
    requires polls != []
    ensures var due := Due(polls);
            && (polls[|polls| - 1].Missing? ==> due == [ErrorEvent])
            && (polls[|polls| - 1].Seen? ==> forall i :: 0 <= i < |due| ==> !due[i].ErrorEvent?)
  {
  }

  // ---- Against the job protocol -----------------------------------------------------------------

  function View(s: State): Poll {
    if s.db.job.None? then Missing else Seen(s.db.job.value.status, s.db.job.value.progress)
  }

  function Rank(status: Status): nat {
    match status case Pending => 1 case Running => 2 case Succeeded => 3 case Failed => 3
  }

  ghost predicate Rising(s: seq<Status>) {
    forall i, j :: 0 <= i < j < |s| ==> Rank(s[i]) < Rank(s[j])
  }

  ghost predicate Forward(polls: seq<Poll>) {
    forall i, j :: 0 <= i < j < |polls| && polls[i].Seen? && polls[j].Seen? ==>
      Rank(polls[i].status) <= Rank(polls[j].status)
  }

  /** A history that only moves forward gives at most three status events, each further than the last. */
  lemma {:induction false} ForwardHistory(polls: seq<Poll>)
    requires OneStream(polls) && Forward(polls)
    ensures var sent := Statuses(Streamed(polls));
            && Rising(sent)
            && |sent| <= 3
  {
    hide Streamed, Statuses, PolledStatuses, Collapse, Forward, Climbing, Details, PolledDetails;
    Faithful(polls);
    ForwardStatuses(polls);
    ClimbingCollapse(PolledStatuses(polls));
    var sent := Statuses(Streamed(polls));
    assert forall i :: 0 <= i < |sent| ==> Rank(sent[i]) <= 3;
    RisingIsShort(sent);
  }

  lemma {:induction false} RisingIsShort(sent: seq<Status>)
    requires Rising(sent)
    ensures |sent| <= if sent == [] then 0 else Rank(sent[|sent| - 1])
  {
    if |sent| > 1 {
      assert Rank(sent[|sent| - 2]) < Rank(sent[|sent| - 1]);
      RisingIsShort(sent[..|sent| - 1]);
    }
  }

  ghost predicate Climbing(s: seq<Status>) {
    && (forall i, j :: 0 <= i < j < |s| ==> Rank(s[i]) <= Rank(s[j]))
    && (forall i :: 0 <= i < |s| - 1 ==> !Ended(s[i]))
  }

  lemma ForwardStatuses(polls: seq<Poll>)
    requires OneStream(polls) && Forward(polls)
    ensures Climbing(PolledStatuses(polls))
  {
    var seen := if polls != [] && polls[|polls| - 1].Missing? then polls[..|polls| - 1] else polls;
    assert PolledStatuses(seen) == PolledStatuses(polls);
    PolledStatusesAll(seen);
  }

  lemma {:induction false} ClimbingCollapse(s: seq<Status>)
    requires Climbing(s)
    ensures Rising(Collapse(s))
    ensures s != [] ==> Collapse(s) != [] && Collapse(s)[|Collapse(s)| - 1] == s[|s| - 1]
  {
    if s != [] {
      var n := |s| - 1;
      ClimbingCollapse(s[..n]);
      if n > 0 && s[n - 1] != s[n] {
        assert Rank(s[n - 1]) <= Rank(s[n]) && !Ended(s[n - 1]);
        RisingAppend(Collapse(s[..n]), s[n]);
      }
    }
  }

  lemma RisingAppend(c: seq<Status>, x: Status)
    requires Rising(c) && c != [] && Rank(c[|c| - 1]) <= Rank(x) && !Ended(c[|c| - 1])
    ensures c[|c| - 1] == x || Rising(c + [x])
  {
    forall i | 0 <= i < |c| ensures c[|c| - 1] == x || Rank(c[i]) < Rank(x) {
      assert i < |c| - 1 ==> Rank(c[i]) < Rank(c[|c| - 1]);
    }
  }

  predicate ShowsPending(s: State) { s.db.job.Some? && s.db.job.value.status.Pending? }

  /** Once a job was created, PENDING never comes back, not even with deliveries repeated after the end. */
  lemma {:induction false} PendingNeverReturns(states: seq<State>, steps: seq<Step>, i: nat, j: nat)
    requires Execution(states, steps) && i <= j < |states| && states[i].created && !ShowsPending(states[i])
    ensures states[j].created && !ShowsPending(states[j])
    decreases j
  {
    if i < j {
      PendingNeverReturns(states, steps, i, j - 1);
      PendingOnlyCreated(states[j - 1], steps[j - 1]);
    }
  }

  lemma PendingOnlyCreated(s: State, step: Step)
    requires Enabled(s, step) && s.created && !ShowsPending(s)
    ensures Apply(s, step).created && !ShowsPending(Apply(s, step))
  {
  }

  /** Watching any run of the protocol, repeated deliveries and deletes included, at any growing sequence of
      moments from its creation on, a client gets at most three status events and they only move forward. */
  lemma WatchingAnyRun(states: seq<State>, steps: seq<Step>, at: seq<nat>)
    requires Execution(states, steps)
    requires forall i :: 0 <= i < |at| ==> at[i] < |states| && states[at[i]].created
    requires forall i, j :: 0 <= i < j < |at| ==> at[i] <= at[j]
    ensures var polls := seq(|at|, i requires 0 <= i < |at| => View(states[at[i]]));
            var used := polls[..UpTo(polls)];
            && |Statuses(Streamed(used))| <= 3
            && Rising(Statuses(Streamed(used)))
  {
    hide Execution, Streamed, Statuses;
    var polls := seq(|at|, i requires 0 <= i < |at| => View(states[at[i]]));
    var used := polls[..UpTo(polls)];
    OnlyLastStops(polls);
    forall i, j | 0 <= i < j < |used| && used[i].Seen? && used[j].Seen?
      ensures Rank(used[i].status) <= Rank(used[j].status)
    {
      if used[i].status.Running? { PendingNeverReturns(states, steps, at[i], at[j]); }
    }
    ForwardHistory(used);
  }

  lemma {:induction false} OnlyLastStops(polls: seq<Poll>)
    ensures OneStream(polls[..UpTo(polls)])
  {
    if polls != [] && !Stops(polls[0]) {
      var rest := polls[1..];
      OnlyLastStops(rest);
      var used := polls[..UpTo(polls)];
      forall i | 0 <= i < |used| - 1 ensures !Stops(used[i]) {
        if i > 0 { assert used[i] == rest[..UpTo(rest)][i - 1]; }
      }
    }
  }
}
