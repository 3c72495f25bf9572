/** The `subscribe` stream: polls of the worktree list become pushes, one for every change
    a client should hear about. */
module Subscription {
  import opened Wrappers

  datatype Status = Status(isDirty: bool, hasUpstream: bool, ahead: nat, behind: nat, unknown: bool)

  datatype AgentSession = AgentSession(
    kind: string, freshness: string, lastActivity: nat, id: string, name: Option<string>)

  datatype Agents = Agents(top: AgentSession, sessions: seq<AgentSession>)

  datatype Worktree = Worktree(
    name: string, id: string, path: string, branch: Option<string>, head: Option<string>,
    isMain: bool, isLocked: bool, isPrunable: bool, status: Status, ageSeconds: Option<nat>,
    issue: Option<nat>, pr: Option<nat>, agents: Option<Agents>, note: Option<string>)

  type Snapshot = seq<Worktree>

  // ----- Which changes count -----

  predicate RowDiffers(a: Worktree, b: Worktree) {
    || a.name != b.name
    || a.id != b.id
    || a.path != b.path
    || a.branch != b.branch
    || a.head != b.head
    || a.isMain != b.isMain
    || a.isLocked != b.isLocked
    || a.isPrunable != b.isPrunable
    || a.status != b.status
    || a.issue != b.issue
    || a.pr != b.pr
    || a.agents != b.agents
  }

  predicate WorktreesDiffer(a: Snapshot, b: Snapshot) {
    |a| != |b| || exists i :: 0 <= i < |a| && RowDiffers(a[i], b[i])
  }

  /** A snapshot without what a client is not told about. */
  function Visible(s: Snapshot): Snapshot {
    seq(|s|, i requires 0 <= i < |s| => s[i].(ageSeconds := None, note := None))
  }

  /** A snapshot without the ages, which tick by themselves. */
  function Ageless(s: Snapshot): Snapshot {
    seq(|s|, i requires 0 <= i < |s| => s[i].(ageSeconds := None))
  }

  /** Two snapshots count as the same exactly when they are equal up to ages and notes;
      in particular that is an equivalence. */
  lemma {:induction false} DifferIsVisible(a: Snapshot, b: Snapshot)
    ensures WorktreesDiffer(a, b) <==> Visible(a) != Visible(b)
  {
    if |a| == |b| {
      forall i | 0 <= i < |a|
        ensures RowDiffers(a[i], b[i]) <==> Visible(a)[i] != Visible(b)[i]
      {
      }
      if Visible(a) != Visible(b) {
        var i :| 0 <= i < |a| && Visible(a)[i] != Visible(b)[i];
      }
    }
  }

  predicate SameNotes(a: Snapshot, b: Snapshot) {
    |a| == |b| ==> forall i :: 0 <= i < |a| ==> a[i].note == b[i].note
  }

  /** The contract says that every field but the age is compared. The code meets that for
      a pair of snapshots exactly when their notes agree or something besides ages and notes
      differs. */
  lemma {:induction false} DocumentedComparisonIff(a: Snapshot, b: Snapshot)
    ensures (WorktreesDiffer(a, b) <==> Ageless(a) != Ageless(b)) <==> SameNotes(a, b) || Visible(a) != Visible(b)
  {
    DifferIsVisible(a, b);
    if Ageless(a) == Ageless(b) {
      assert |a| == |Ageless(a)| == |b|;
      forall i | 0 <= i < |a|
        ensures Visible(a)[i] == Visible(b)[i] && a[i].note == b[i].note
      {
        assert Ageless(a)[i] == Ageless(b)[i];
      }
      assert Visible(a) == Visible(b);
    } else if !WorktreesDiffer(a, b) {
      assert |a| == |Visible(a)| == |b|;
      var i :| 0 <= i < |a| && Ageless(a)[i] != Ageless(b)[i];
      assert Visible(a)[i] == Visible(b)[i];
    }
  }

  /** An edited note alone is not pushed. */
  lemma {:induction false} EditedNoteIsSilent(w: Worktree, note: string)
    requires w.note != Some(note)
    ensures !WorktreesDiffer([w], [w.(note := Some(note))])
    ensures Ageless([w]) != Ageless([w.(note := Some(note))])
  {
    assert Ageless([w])[0] != Ageless([w.(note := Some(note))])[0];
  }

  // ----- The decision -----

  type Poll = Option<Snapshot>

  /** What to push for one poll; a failed poll is `None`. */
  function NextSubscriptionPush(last: Option<Snapshot>, latest: Poll): Option<Snapshot> {
    match latest
    case None => None
    case Some(now) =>
      match last
      case None => Some(now)
      case Some(prev) => if WorktreesDiffer(prev, now) then Some(now) else None
  }

  // ----- The stream -----

  datatype Read = Closed | Chatter | Idle | Broken

  /** One turn of the loop: the shutdown flag, the read that waits, and the poll. */
  datatype Tick = Tick(shutdown: bool, read: Read, poll: Poll)

  predicate StopsAt(t: Tick) {
    t.shutdown || t.read == Closed || t.read == Broken
  }

  /** The polls taken before the stream stops by itself. */
  function Polls(first: Poll, ticks: seq<Tick>): seq<Poll> {
    if ticks == [] then [first]
    else
      var before := Polls(first, ticks[..|ticks| - 1]);
      if |before| < |ticks| || StopsAt(ticks[|ticks| - 1]) then before else before + [ticks[|ticks| - 1].poll]
  }

  function Successes(polls: seq<Poll>): seq<Snapshot> {
    if polls == [] then []
    else
      var last := polls[|polls| - 1];
      Successes(polls[..|polls| - 1]) + if last.Some? then [last.value] else []
  }

  function LastOf(s: seq<Snapshot>): Option<Snapshot> {
    if s == [] then None else Some(s[|s| - 1])
  }

  function AsSeq(push: Option<Snapshot>): seq<Snapshot> {
    if push.Some? then [push.value] else []
  }

  /** Drops every snapshot that counts as the same as the one right before it. */
  function Destutter(s: seq<Snapshot>): seq<Snapshot> {
    if s == [] then []
    else
      var n := |s| - 1;
      Destutter(s[..n]) + if n == 0 || WorktreesDiffer(s[n - 1], s[n]) then [s[n]] else []
  }

  /** The last push stands for the latest successful poll, and no push repeats the one
      before it. */
  lemma {:induction false} DestutterIsCurrent(s: seq<Snapshot>)
    ensures s == [] <==> Destutter(s) == []
    ensures s != [] ==> var d := Destutter(s); !WorktreesDiffer(d[|d| - 1], s[|s| - 1])
    ensures var d := Destutter(s); forall i :: 0 <= i < |d| - 1 ==> WorktreesDiffer(d[i], d[i + 1])
  {
    if s != [] {
      var n := |s| - 1;
      DestutterIsCurrent(s[..n]);
      if n > 0 {
        var d := Destutter(s[..n]);
        assert s[..n][n - 1] == s[n - 1];
        DifferIsVisible(d[|d| - 1], s[n - 1]);
        DifferIsVisible(s[n - 1], s[n]);
        DifferIsVisible(d[|d| - 1], s[n]);
      }
      DifferIsVisible(s[n], s[n]);
    }
  }

  /** Comparing a new snapshot with the last push is comparing it with the last poll. */
  lemma {:induction false} PushIsDestutter(s: seq<Snapshot>, now: Snapshot)
    ensures var d := Destutter(s);
            Destutter(s + [now]) == d + AsSeq(NextSubscriptionPush(LastOf(d), Some(now)))
  {
    DestutterIsCurrent(s);
    assert (s + [now])[..|s|] == s;
    if s != [] {
      var d := Destutter(s);
      DifferIsVisible(d[|d| - 1], s[|s| - 1]);
      DifferIsVisible(s[|s| - 1], now);
      DifferIsVisible(d[|d| - 1], now);
    }
  }

  lemma {:induction false} DestutterGrows(s: seq<Snapshot>, t: seq<Snapshot>)
    requires s <= t
    ensures Destutter(s) <= Destutter(t)
    decreases |t|
  {
    if s != t {
      assert s <= t[..|t| - 1];
      DestutterGrows(s, t[..|t| - 1]);
    }
  }

  lemma {:induction false} SuccessesGrow(a: seq<Poll>, b: seq<Poll>)
    requires a <= b
    ensures Successes(a) <= Successes(b)
    decreases |b|
  {
    if a != b {
      assert a <= b[..|b| - 1];
      SuccessesGrow(a, b[..|b| - 1]);
    }
  }

  lemma {:induction false} PollsGrow(first: Poll, a: seq<Tick>, b: seq<Tick>)
    requires a <= b
    ensures Polls(first, a) <= Polls(first, b)
    ensures |Polls(first, b)| <= |b| + 1
    ensures |Polls(first, a)| <= |a| ==> Polls(first, a) == Polls(first, b)
    decreases |b|
  {
    if a != b {
      assert a <= b[..|b| - 1];
      PollsGrow(first, a, b[..|b| - 1]);
    } else if b != [] {
      PollsGrow(first, b[..|b| - 1], b[..|b| - 1]);
    }
  }

  /** All that should be pushed for a run. */
  function Pushes(first: Poll, ticks: seq<Tick>): seq<Snapshot> {
    Destutter(Successes(Polls(first, ticks)))
  }

  lemma {:induction false} PushesGrow(first: Poll, a: seq<Tick>, b: seq<Tick>)
    requires a <= b
    ensures Pushes(first, a) <= Pushes(first, b)
    ensures |Polls(first, a)| <= |a| ==> Pushes(first, a) == Pushes(first, b)
  {
    PollsGrow(first, a, b);
    SuccessesGrow(Polls(first, a), Polls(first, b));
    DestutterGrows(Successes(Polls(first, a)), Successes(Polls(first, b)));
  }

  function Take(s: seq<Snapshot>, n: nat): seq<Snapshot> {
    if n < |s| then s[..n] else s
  }

  /** One more poll adds what the decision says, and a failed one adds nothing. */
  lemma {:induction false} OnePoll(polls: seq<Poll>, poll: Poll)
    ensures var d := Destutter(Successes(polls));
            Destutter(Successes(polls + [poll])) == d + AsSeq(NextSubscriptionPush(LastOf(d), poll))
  {
    assert (polls + [poll])[..|polls|] == polls;
    assert Successes(polls + [poll]) == Successes(polls) + AsSeq(poll);
    if poll.Some? {
      PushIsDestutter(Successes(polls), poll.value);
    } else {
      assert Successes(polls + [poll]) == Successes(polls);
    }
  }

  /** One more turn of a stream that has not stopped: it stops, or pushes what the decision
      says. */
  lemma {:induction false} OneTurn(first: Poll, ticks: seq<Tick>, i: nat)
    requires i < |ticks| && |Polls(first, ticks[..i])| == i + 1
    ensures StopsAt(ticks[i]) ==> Pushes(first, ticks) == Pushes(first, ticks[..i])
    ensures !StopsAt(ticks[i]) ==>
              && |Polls(first, ticks[..i + 1])| == i + 2
              && Pushes(first, ticks[..i + 1]) ==
                 Pushes(first, ticks[..i]) +
                 AsSeq(NextSubscriptionPush(LastOf(Pushes(first, ticks[..i])), ticks[i].poll))
              && Pushes(first, ticks[..i + 1]) <= Pushes(first, ticks)
  {
    assert ticks[..i + 1][..i] == ticks[..i];
    PushesGrow(first, ticks[..i + 1], ticks);
    OnePoll(Polls(first, ticks[..i]), ticks[i].poll);
  }

  /** The stream of one subscriber who takes `sends` notifications before the connection
      fails: exactly the first so many pushes of the whole run. */
  method StreamSubscription(first: Poll, ticks: seq<Tick>, sends: nat) returns (pushed: seq<Snapshot>)
    ensures pushed <= Pushes(first, ticks)
    ensures |pushed| == if sends < |Pushes(first, ticks)| then sends else |Pushes(first, ticks)|
  {
    pushed := [];
    var last: Option<Snapshot> := None;
    FirstPush(first, ticks);
    var push := NextSubscriptionPush(last, first);
    if push.Some? {
      if sends == 0 {
        return;
      }
      pushed := [push.value];
      last := push;
    }
    for i := 0 to |ticks|
      invariant |pushed| <= sends && pushed == Pushes(first, ticks[..i])
      invariant |Polls(first, ticks[..i])| == i + 1
      invariant last == LastOf(pushed)
    {
      OneTurn(first, ticks, i);
      if StopsAt(ticks[i]) {
        return;
      }
      push := NextSubscriptionPush(last, ticks[i].poll);
      if push.Some? {
        if |pushed| == sends {
          TakeOfLonger(pushed, push.value, Pushes(first, ticks));
          return;
        }
        pushed := pushed + [push.value];
        last := push;
      }
    }
    assert ticks[..|ticks|] == ticks;
  }

  lemma {:induction false} FirstPush(first: Poll, ticks: seq<Tick>)
    ensures Pushes(first, ticks[..0]) == AsSeq(NextSubscriptionPush(None, first))
    ensures |Polls(first, ticks[..0])| == 1
    ensures Take(Pushes(first, ticks), 0) == []
  {
    assert ticks[..0] == [] && [] + [first] == [first];
    OnePoll([], first);
  }

  lemma {:induction false} TakeOfLonger(s: seq<Snapshot>, x: Snapshot, whole: seq<Snapshot>)
    requires s + [x] <= whole
    ensures Take(whole, |s|) == s
  {
    assert whole[..|s|] == (s + [x])[..|s|];
  }

  /** After every turn of every run: the last push counts as the same as the latest
      successful poll, and no two pushes in a row count as the same. */
  lemma {:induction false} SubscriberIsCurrent(first: Poll, ticks: seq<Tick>)
    ensures var polled, pushed := Successes(Polls(first, ticks)), Pushes(first, ticks);
            && (polled == [] <==> pushed == [])
            && (polled != [] ==> !WorktreesDiffer(pushed[|pushed| - 1], polled[|polled| - 1]))
            && forall i :: 0 <= i < |pushed| - 1 ==> WorktreesDiffer(pushed[i], pushed[i + 1])
  {
    DestutterIsCurrent(Successes(Polls(first, ticks)));
  }

  /** The stream polls once at first and once in every turn, whatever the client says, until
      the daemon shuts down, the client closes or the connection breaks. */
  lemma {:induction false} PollsUntilStopped(first: Poll, ticks: seq<Tick>, n: nat)
    requires n <= |ticks|
    requires forall i :: 0 <= i < n ==> !ticks[i].shutdown && (ticks[i].read == Chatter || ticks[i].read == Idle)
    requires n < |ticks| ==> ticks[n].shutdown || ticks[n].read == Closed || ticks[n].read == Broken
    ensures var polls := Polls(first, ticks);
            && |polls| == n + 1 && polls[0] == first
            && forall i :: 0 <= i < n ==> polls[i + 1] == ticks[i].poll
    decreases |ticks|
  {
    if ticks != [] {
      var init := ticks[..|ticks| - 1];
      PollsUntilStopped(first, init, if n == |ticks| then n - 1 else n);
    }
  }

  /** A poll is pushed exactly when it succeeds and shows something other than the last push. */
  lemma {:induction false} PushIff(last: Option<Snapshot>, latest: Poll, now: Snapshot)
    ensures NextSubscriptionPush(last, latest) == Some(now) <==>
            latest == Some(now) && (last.None? || Visible(last.value) != Visible(now))
  {
    if last.Some? {
      DifferIsVisible(last.value, now);
    }
  }
}
