/**
 * The polling scheduler, src/cron/cron-scheduler.ts:173-258. A tick may come any number of
 * times in a minute or skip minutes; what each job fires is a function of the ticks seen since
 * it was registered.
 */
module CronScheduler {

  import opened Cron
  import opened Wrappers

  type Id = string

  // ---------------------------------------------------------------------
  // What one job fires, given which minutes hit its expression
  // ---------------------------------------------------------------------

  type Hits = int -> bool

  /** The minutes in which a job fires, in order, when it sees these ticks. */
  function Firings(hits: Hits, ticks: seq<int>): seq<int> {
    if ticks == [] then []
    else
      var before, m := Firings(hits, ticks[..|ticks| - 1]), ticks[|ticks| - 1];
      if LastOf(before) == Some(m) || !hits(m) then before else before + [m]
  }

  function LastOf(minutes: seq<int>): Option<int> {
    if minutes == [] then None else Some(minutes[|minutes| - 1])
  }

  predicate NonDecreasing(ticks: seq<int>) {
    forall i, j :: 0 <= i < j < |ticks| ==> ticks[i] <= ticks[j]
  }

  /** The clock comes back to a hit minute after it was in another. */
  predicate Returns(hits: Hits, ticks: seq<int>) {
    exists i, k, j :: 0 <= i < k < j < |ticks| && ComesBack(hits, ticks, i, k, j)
  }

  predicate ComesBack(hits: Hits, ticks: seq<int>, i: nat, k: nat, j: nat)
    requires i < k < j < |ticks|
  {
    ticks[i] == ticks[j] && hits(ticks[j]) && hits(ticks[k]) && ticks[k] != ticks[j]
  }

  /** A job fires in a minute exactly when the minute is hit and has a tick. */
  lemma {:induction false} FiresInTickedHits(hits: Hits, ticks: seq<int>)
    ensures forall m :: m in Firings(hits, ticks) <==> m in ticks && hits(m)
  {
    if ticks != [] {
      var front, m := ticks[..|ticks| - 1], ticks[|ticks| - 1];
      FiresInTickedHits(hits, front);
      assert ticks == front + [m];
      var before := Firings(hits, front);
      if LastOf(before) == Some(m) { assert m in before; }
    }
  }

  /** The last firing is the last tick that hits. */
  lemma {:induction false} LastFiringIsLastHit(hits: Hits, ticks: seq<int>) returns (l: nat)
    requires Firings(hits, ticks) != []
    ensures l < |ticks| && hits(ticks[l]) && LastOf(Firings(hits, ticks)) == Some(ticks[l])
    ensures forall k :: l < k < |ticks| ==> !hits(ticks[k])
  {
    var n := |ticks| - 1;
    if hits(ticks[n]) {
      l := n;
    } else {
      l := LastFiringIsLastHit(hits, ticks[..n]);
    }
  }

  /** A return is one that the earlier ticks already had, or the last tick completes one. */
  lemma ReturnsSplits(hits: Hits, ticks: seq<int>)
    requires ticks != []
    ensures var n := |ticks| - 1;
      Returns(hits, ticks) <==> Returns(hits, ticks[..n]) || Completes(hits, ticks, n)
  {
    var n := |ticks| - 1;
    if i, k, j :| 0 <= i < k < j < n && ComesBack(hits, ticks[..n], i, k, j) {
      assert ComesBack(hits, ticks, i, k, j);
    }
    if i, k, j :| 0 <= i < k < j < |ticks| && ComesBack(hits, ticks, i, k, j) {
      if j < n { assert ComesBack(hits, ticks[..n], i, k, j); }
    }
  }

  /** Tick `n` comes back to a minute. */
  predicate Completes(hits: Hits, ticks: seq<int>, n: nat)
    requires n < |ticks|
  {
    exists i, k :: 0 <= i < k < n && ComesBack(hits, ticks, i, k, n)
  }

  /** A tick that hits the minute last fired in completes no new return. */
  lemma SameMinuteIsNoReturn(hits: Hits, ticks: seq<int>, l: nat)
    requires l < |ticks| - 1 && hits(ticks[l]) && ticks[l] == ticks[|ticks| - 1]
    requires forall k :: l < k < |ticks| - 1 ==> !hits(ticks[k])
    ensures Completes(hits, ticks, |ticks| - 1) ==> Returns(hits, ticks[..|ticks| - 1])
  {
    var n := |ticks| - 1;
    if i, k :| 0 <= i < k < n && ComesBack(hits, ticks, i, k, n) {
      assert k < l;
      assert ComesBack(hits, ticks[..n], i, k, l);
    }
  }

  /** A tick in another hit minute completes a return exactly when that minute had a tick before. */
  lemma OtherMinuteReturns(hits: Hits, ticks: seq<int>, l: nat)
    requires var n := |ticks| - 1; l < n && hits(ticks[l]) && hits(ticks[n]) && ticks[l] != ticks[n]
    requires forall k :: l < k < |ticks| - 1 ==> !hits(ticks[k])
    ensures Completes(hits, ticks, |ticks| - 1) <==> ticks[|ticks| - 1] in ticks[..|ticks| - 1]
  {
    var n := |ticks| - 1;
    if ticks[n] in ticks[..n] {
      var i :| 0 <= i < n && ticks[..n][i] == ticks[n];
      assert i < l;
      assert ComesBack(hits, ticks, i, l, n);
    }
    if i, k :| 0 <= i < k < n && ComesBack(hits, ticks, i, k, n) {
      assert ticks[..n][i] == ticks[n];
    }
  }

  lemma NoHitNoReturn(hits: Hits, ticks: seq<int>)
    requires ticks != [] && Firings(hits, ticks[..|ticks| - 1]) == []
    ensures !Completes(hits, ticks, |ticks| - 1)
  {
    var n := |ticks| - 1;
    FiresInTickedHits(hits, ticks[..n]);
    forall i, k | 0 <= i < k < n ensures !ComesBack(hits, ticks, i, k, n) {
      assert ticks[..n][k] == ticks[k] && ticks[..n][k] in ticks[..n];
    }
  }

  lemma DistinctSnoc(minutes: seq<int>, m: int)
    ensures Distinct(minutes + [m]) <==> Distinct(minutes) && m !in minutes
  {
    var more := minutes + [m];
    assert forall i :: 0 <= i < |minutes| ==> more[i] == minutes[i];
    if m in minutes {
      var i :| 0 <= i < |minutes| && minutes[i] == m;
      assert more[i] == more[|minutes|];
    }
  }

  /** The last tick completes a new return exactly when its firing repeats an earlier one. */
  lemma ReturnsStep(hits: Hits, ticks: seq<int>)
    requires ticks != []
    ensures var n := |ticks| - 1; var before := Firings(hits, ticks[..n]);
      Returns(hits, ticks) <==>
        Returns(hits, ticks[..n]) || (hits(ticks[n]) && LastOf(before) != Some(ticks[n]) && ticks[n] in before)
  {
    var n := |ticks| - 1;
    var front, m := ticks[..n], ticks[n];
    var before := Firings(hits, front);
    ReturnsSplits(hits, ticks);
    if hits(m) {
      if before == [] {
        NoHitNoReturn(hits, ticks);
      } else {
        var l := LastFiringIsLastHit(hits, front);
        assert front[l] == ticks[l];
        assert forall k :: l < k < n ==> ticks[k] == front[k];
        if ticks[l] == m {
          SameMinuteIsNoReturn(hits, ticks, l);
        } else {
          OtherMinuteReturns(hits, ticks, l);
          FiresInTickedHits(hits, front);
        }
      }
    }
  }

  /** A job fires at most once in each minute exactly when the clock brings no such return. */
  lemma {:induction false} FiresOnceIffNoReturn(hits: Hits, ticks: seq<int>)
    ensures Distinct(Firings(hits, ticks)) <==> !Returns(hits, ticks)
  {
    if ticks != [] {
      var n := |ticks| - 1;
      FiresOnceIffNoReturn(hits, ticks[..n]);
      ReturnsStep(hits, ticks);
      DistinctSnoc(Firings(hits, ticks[..n]), ticks[n]);
    }
  }

  /** With a clock that never goes back: once in each hit minute that has a tick, never twice. */
  lemma {:induction false} OncePerHitMinute(hits: Hits, ticks: seq<int>)
    requires NonDecreasing(ticks)
    ensures Distinct(Firings(hits, ticks))
    ensures forall m :: m in Firings(hits, ticks) <==> m in ticks && hits(m)
  {
    FiresOnceIffNoReturn(hits, ticks);
    FiresInTickedHits(hits, ticks);
  }

  /** A clock set back by a minute makes a job fire twice in the same minute. */
  lemma ClockSetBackFiresTwice(hits: Hits, m: int)
    requires hits(m) && hits(m + 1)
    ensures Firings(hits, [m, m + 1, m]) == [m, m + 1, m]
  {
    var two := [m, m + 1];
    assert [m][..0] == [];
    assert Firings(hits, [m]) == [m];
    assert two[..1] == [m];
    assert Firings(hits, two) == two;
    assert [m, m + 1, m][..2] == two;
  }

  // ---------------------------------------------------------------------
  // createCronScheduler
  // ---------------------------------------------------------------------

  datatype Job = Job(fields: Fields, lastFired: Option<int>)

  function HitsOf(f: Fields): Hits { m => Matches(f, m) }

  /** The test in `tick`: not yet fired this minute, and the minute matches. */
  predicate Fires(job: Job, m: int) {
    job.lastFired != Some(m) && HitsOf(job.fields)(m)
  }

  function AfterTick(job: Job, m: int): Job {
    if Fires(job, m) then job.(lastFired := Some(m)) else job
  }

  /** What was called is what these ticks make the job fire, and the job remembers the last of it. */
  predicate Kept(job: Job, ticks: seq<int>, history: seq<int>) {
    history == Firings(HitsOf(job.fields), ticks) && job.lastFired == LastOf(history)
  }

  function Called(job: Job, history: seq<int>, m: int): seq<int> {
    if Fires(job, m) then history + [m] else history
  }

  lemma {:induction false} KeptByTick(job: Job, ticks: seq<int>, history: seq<int>, m: int)
    requires Kept(job, ticks, history)
    ensures Kept(AfterTick(job, m), ticks + [m], Called(job, history, m))
  {
    var more := ticks + [m];
    assert more[..|more| - 1] == ticks && more[|more| - 1] == m;
  }

  ghost predicate AllKept(jobs: map<Id, Job>, ticks: map<Id, seq<int>>, history: map<Id, seq<int>>) {
    ticks.Keys == jobs.Keys == history.Keys && forall id :: id in jobs ==> Kept(jobs[id], ticks[id], history[id])
  }

  ghost function Ticked(ticks: map<Id, seq<int>>, m: int): map<Id, seq<int>> {
    map id | id in ticks :: ticks[id] + [m]
  }

  ghost function AfterAll(jobs: map<Id, Job>, m: int): map<Id, Job> {
    map id | id in jobs :: AfterTick(jobs[id], m)
  }

  /** The histories after the callbacks of one tick. */
  ghost function AllCalled(jobs: map<Id, Job>, history: map<Id, seq<int>>, m: int): map<Id, seq<int>>
    requires history.Keys == jobs.Keys
  {
    map id | id in history :: Called(jobs[id], history[id], m)
  }

  function Due(jobs: map<Id, Job>, m: int): set<Id> {
    set id | id in jobs && Fires(jobs[id], m)
  }

  lemma AllKeptByTick(jobs: map<Id, Job>, ticks: map<Id, seq<int>>, history: map<Id, seq<int>>, m: int)
    returns (after: map<Id, Job>, next: map<Id, seq<int>>, called: map<Id, seq<int>>)
    requires AllKept(jobs, ticks, history)
    ensures after == AfterAll(jobs, m) && next == Ticked(ticks, m) && called == AllCalled(jobs, history, m)
    ensures AllKept(after, next, called)
    ensures after == map[] <==> jobs == map[]
  {
    after, next, called := AfterAll(jobs, m), Ticked(ticks, m), AllCalled(jobs, history, m);
    assert after == map[] <==> after.Keys == {};
    forall id | id in jobs ensures Kept(after[id], next[id], called[id]) {
      KeptByTick(jobs[id], ticks[id], history[id], m);
    }
  }

  lemma Registered(
    jobs: map<Id, Job>, ticks: map<Id, seq<int>>, history: map<Id, seq<int>>, id: Id, fields: Fields)
    returns (more: map<Id, Job>, blank: map<Id, seq<int>>, clean: map<Id, seq<int>>)
    requires AllKept(jobs, ticks, history)
    ensures more == jobs[id := Job(fields, None)] && blank == ticks[id := []] && clean == history[id := []]
    ensures AllKept(more, blank, clean)
  {
    more, blank, clean := jobs[id := Job(fields, None)], ticks[id := []], history[id := []];
    assert Kept(more[id], blank[id], clean[id]);
    forall other | other in more ensures Kept(more[other], blank[other], clean[other]) {
      if other != id { assert Kept(jobs[other], ticks[other], history[other]); }
    }
  }

  class Scheduler {
    var jobs: map<Id, Job>
    /** pollInterval is set. */
    var polling: bool
    /** The minutes of the ticks since each job was last registered. */
    ghost var ticks: map<Id, seq<int>>
    /** The minutes in which each job's callback was called since then. */
    ghost var history: map<Id, seq<int>>

    ghost predicate Valid()
      reads this
    {
      (polling <==> jobs != map[]) && AllKept(jobs, ticks, history)
    }

    constructor ()
      ensures Valid() && jobs == map[]
    {
      jobs, polling, ticks, history := map[], false, map[], map[];
    }

    /** An invalid expression throws and changes nothing; a valid one replaces any earlier schedule. */
    method Schedule(id: Id, e: Expression) returns (ok: bool, ghost fields: Option<Fields>)
      requires Valid() && WellFormed(e)
      modifies this
      ensures Valid() && (ok <==> ExpressionOk(e)) && (ok <==> fields.Some?)
      ensures !ok ==> jobs == old(jobs) && ticks == old(ticks) && history == old(history)
      ensures ok ==> Denotes(e, fields.value) && Parsed(fields.value)
      ensures ok ==> jobs == old(jobs)[id := Job(fields.value, None)]
      ensures ok ==> ticks == old(ticks)[id := []] && history == old(history)[id := []]
    {
      var parsed := ParseExpression(e);
      fields := parsed;
      if parsed.None? { return false, fields; }
      Register(id, parsed.value);
      return true, fields;
    }

    method Register(id: Id, fields: Fields)
      requires Valid()
      modifies this
      ensures Valid() && jobs == old(jobs)[id := Job(fields, None)]
      ensures ticks == old(ticks)[id := []] && history == old(history)[id := []]
    {
      ghost var more, blank, clean := Registered(jobs, ticks, history, id, fields);
      SizeOne(jobs, id, Job(fields, None));
      jobs := jobs[id := Job(fields, None)];
      ticks, history := blank, clean;
      if |jobs| == 1 { polling := true; }
    }

    method Unschedule(id: Id)
      requires Valid()
      modifies this
      ensures Valid() && jobs == old(jobs) - {id}
      ensures ticks == old(ticks) - {id} && history == old(history) - {id}
    {
      jobs, ticks, history := jobs - {id}, ticks - {id}, history - {id};
      if |jobs| == 0 { polling := false; }
    }

    method UnscheduleAll()
      requires Valid()
      modifies this
      ensures Valid() && jobs == map[] && !polling
    {
      jobs, ticks, history, polling := map[], map[], map[], false;
    }

    /** Every job sees the tick's minute; those returned have their callback called, once. */
    method Tick(now: int) returns (triggered: set<Id>)
      requires Valid()
      modifies this
      ensures Valid() && polling == old(polling)
      ensures jobs == AfterAll(old(jobs), now / MS_PER_MINUTE) && triggered == Due(old(jobs), now / MS_PER_MINUTE)
      ensures ticks == Ticked(old(ticks), now / MS_PER_MINUTE)
      ensures old(history.Keys == jobs.Keys) && history == AllCalled(old(jobs), old(history), now / MS_PER_MINUTE)
    {
      ghost var after, next, called := AllKeptByTick(jobs, ticks, history, now / MS_PER_MINUTE);
      triggered := FireDue(now / MS_PER_MINUTE);
      ticks := next;
    }

    /** The loop over the jobs. */
    method FireDue(m: int) returns (triggered: set<Id>)
      requires history.Keys == jobs.Keys
      modifies this`jobs, this`history
      ensures jobs == AfterAll(old(jobs), m) && triggered == Due(old(jobs), m)
      ensures history == AllCalled(old(jobs), old(history), m)
    {
      var todo := jobs.Keys;
      triggered := {};
      while todo != {}
        invariant jobs.Keys == old(jobs.Keys) == history.Keys && todo <= jobs.Keys
        invariant forall id :: id in todo ==> jobs[id] == old(jobs[id]) && history[id] == old(history[id])
        invariant forall id :: id in jobs && id !in todo ==> jobs[id] == AfterTick(old(jobs[id]), m)
        invariant forall id :: id in jobs && id !in todo ==>
          history[id] == Called(old(jobs[id]), old(history[id]), m)
        invariant forall id :: id in triggered <==> id in jobs && id !in todo && Fires(old(jobs[id]), m)
      {
        var id :| id in todo;
        var fired := FireIfDue(id, m);
        if fired { triggered := triggered + {id}; }
        todo := todo - {id};
      }
    }

    /** Remember the minute and call the callback. */
    method FireIfDue(id: Id, m: int) returns (fired: bool)
      requires id in jobs && id in history
      modifies this`jobs, this`history
      ensures jobs == old(jobs)[id := AfterTick(old(jobs[id]), m)]
      ensures history == old(history)[id := Called(old(jobs[id]), old(history[id]), m)]
      ensures fired == Fires(old(jobs[id]), m)
    {
      var job := jobs[id];
      fired := Fires(job, m);
      if fired {
        jobs := jobs[id := job.(lastFired := Some(m))];
        history := history[id := history[id] + [m]];
      } else {
        assert jobs == jobs[id := job] && history == history[id := history[id]];
      }
    }

    /**
     * The callbacks of a registered job: in exactly the matching minutes that had a tick, and no minute twice
     * exactly if the clock did not return; so once each if it never went back.
     */
    lemma CalledOncePerHitMinute(id: Id)
      requires Valid() && id in jobs && id in ticks && id in history
      ensures forall m :: m in history[id] <==> m in ticks[id] && Matches(jobs[id].fields, m)
      ensures Distinct(history[id]) <==> !Returns(HitsOf(jobs[id].fields), ticks[id])
      ensures NonDecreasing(ticks[id]) ==> Distinct(history[id])
    {
      var hits := HitsOf(jobs[id].fields);
      FiresInTickedHits(hits, ticks[id]);
      FiresOnceIffNoReturn(hits, ticks[id]);
      if NonDecreasing(ticks[id]) { OncePerHitMinute(hits, ticks[id]); }
    }

    method GetNextRun(id: Id, now: int) returns (at: Option<int>)
      ensures at.Some? <==> id in jobs
      ensures at.Some? && Found(jobs[id].fields, now / MS_PER_MINUTE) ==>
        at.value % MS_PER_MINUTE == 0 && IsFirstMatch(jobs[id].fields, now / MS_PER_MINUTE, at.value / MS_PER_MINUTE)
      ensures at.Some? && !Found(jobs[id].fields, now / MS_PER_MINUTE) ==>
        at.value == now + SEARCH_DAYS * 24 * 60 * 60 * 1000
    {
      if id !in jobs { return None; }
      var next := GetNextFireTime(jobs[id].fields, now);
      return Some(next);
    }
  }

  lemma SizeOne(jobs: map<Id, Job>, id: Id, job: Job)
    ensures jobs[id := job] != map[]
    ensures jobs == map[] ==> |jobs[id := job]| == 1
  {
    assert id in jobs[id := job];
    if jobs == map[] { assert jobs[id := job] == map[id := job]; }
  }
}
