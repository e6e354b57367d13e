/**
 What becomes of one entry over whole runs: a finished query enters the history, stays in it
 as long as its timeout, and then goes.
 */
module LogFate {
  import opened Common
  import opened EventLog
  import opened LogInvariant
  import opened PollCycle
  import opened LogHistory
  import opened LogFacts

  /** The same record, perhaps of a process that is dead now, and whatever its mark. */
  predicate Follows(e: Entry, e': Entry) {
    && e'.key == e.key && e'.host == e.host && e'.since == e.since
    && e'.text == e.text && e'.duration == e.duration && e'.timeout == e.timeout
    && e'.query == e.query && e'.slave == e.slave
    && (e'.pid == e.pid || e'.pid == DeadProcess)
    && (e.dead ==> e'.dead)
  }

  /**
   A step that leaves the record of `e` in the log: its process is not updated, tracking is on when
   its host is swept, a refresh finds its host active and no finite slider with the clock past its
   timeout, and the user does not remove it.
   */
  predicate Spares(l: Log, s: Step, e: Entry)
    requires e.timeout.Some?
  {
    match s
    case Put(g, u, _) => !(g == e.host && PidOf(u) == e.pid)
    case Sweep(g, track) => g == e.host ==> track
    case Refresh(active, slider, clock, _) =>
      && e.host in active
      && forall i :: 0 <= i < |l.entries| && i < |clock| && l.entries[i].key == e.key ==>
           slider < 0 || clock[i] <= e.timeout.value
    case Remove(i) => i < |l.entries| ==> l.entries[i].key != e.key
    case _ => true
  }

  lemma StepSpares(l: Log, s: Step, e: Entry) returns (e': Entry)
    requires Ok(l) && Possible(l, s) && e in l.entries && e.timeout.Some? && Spares(l, s, e)
    ensures e' in Do(l, s).entries && Follows(e, e')
    ensures e'.updated ==> e.updated && s != Clear(e.host)
    ensures s.Sweep? && s.h == e.host && !e.updated ==> e'.pid == DeadProcess && e'.dead
  {
    var i :| 0 <= i < |l.entries| && l.entries[i] == e;
    match s
    case Clear(g) =>
      e' := Unmarked(e, g);
      assert Do(l, s).entries[i] == e';
    case Put(g, u, born) =>
      e' := e;
      UpdateTouchesOne(l, g, u, born);
    case Sweep(g, track) =>
      e' := if g == e.host && !e.updated then e.(pid := DeadProcess, dead := true) else e;
      SweepIs(l.entries, l.next, g, track, e);
    case Refresh(active, slider, clock, track) =>
      e' := e;
      RefreshIs(l.entries, l.next, active, slider, clock, track, i);
    case Remove(j) =>
      e' := e;
      RemovalIs(l.entries, l.next, j, e);
    case Sort(p) =>
      e' := e;
      SortedMembers(l.entries, p);
  }

  /** Step `k` of the run, where it stands, spares the record. */
  predicate SparesAt(l: Log, steps: seq<Step>, k: nat, e: Entry)
    requires e.timeout.Some?
  {
    k < |steps| && Possible(Run(l, steps[..k]), steps[k]) ==> Spares(Run(l, steps[..k]), steps[k], e)
  }

  ghost predicate AllSpare(l: Log, steps: seq<Step>, e: Entry)
    requires e.timeout.Some?
  {
    forall k: nat :: SparesAt(l, steps, k, e)
  }

  lemma FrontSpares(l: Log, steps: seq<Step>, e: Entry)
    requires e.timeout.Some? && steps != [] && AllSpare(l, steps, e)
    ensures AllSpare(l, steps[..|steps| - 1], e)
    ensures var front, s := steps[..|steps| - 1], steps[|steps| - 1];
      Possible(Run(l, front), s) ==> Spares(Run(l, front), s, e)
  {
    var n := |steps| - 1;
    forall k: nat ensures SparesAt(l, steps[..n], k, e) {
      assert SparesAt(l, steps, k, e);
      if k < n {
        assert steps[..n][..k] == steps[..k];
      }
    }
    assert SparesAt(l, steps, n, e);
  }

  // A step that spares the first record spares what follows it.
  lemma SparesFollower(l: Log, s: Step, e: Entry, e': Entry)
    requires e.timeout.Some? && Follows(e, e') && Spares(l, s, e)
    ensures Spares(l, s, e')
  {
  }

  ghost predicate Cleared(steps: seq<Step>, h: Host) {
    exists k :: 0 <= k < |steps| && steps[k] == Clear(h)
  }

  lemma ClearedBefore(steps: seq<Step>, h: Host)
    requires steps != []
    ensures Cleared(steps, h) && steps[|steps| - 1] != Clear(h) ==> Cleared(steps[..|steps| - 1], h)
  {
    if Cleared(steps, h) && steps[|steps| - 1] != Clear(h) {
      var k :| 0 <= k < |steps| && steps[k] == Clear(h);
      assert steps[..|steps| - 1][k] == Clear(h);
    }
  }

  /** Over a run that spares it the record stays; after a mark of its host it is unmarked. */
  lemma {:induction false} RecordStays(l: Log, steps: seq<Step>, e: Entry) returns (e': Entry)
    requires Ok(l) && e in l.entries && e.timeout.Some? && AllSpare(l, steps, e)
    ensures e' in Run(l, steps).entries && Follows(e, e')
    ensures e'.updated ==> e.updated && !Cleared(steps, e.host)
  {
    if steps == [] {
      return e;
    }
    var n := |steps| - 1;
    var front, s := steps[..n], steps[n];
    FrontSpares(l, steps, e);
    var mid := RecordStays(l, front, e);
    RunOk(l, front);
    if Possible(Run(l, front), s) {
      SparesFollower(Run(l, front), s, e, mid);
      e' := StepSpares(Run(l, front), s, mid);
    } else {
      e' := mid;
    }
    ClearedBefore(steps, e.host);
  }

  /**
   A query enters the history: an entry with a timeout whose process is not reported between a mark
   and the next sweep of its host is a dead process after the sweep, with its text, duration, query
   and timeout, if the run spares it.
   */
  lemma {:induction false} QueryBecomesHistory(l: Log, steps: seq<Step>, e: Entry)
    requires Ok(l) && e in l.entries && e.timeout.Some?
    requires AllSpare(l, steps, e) && Cleared(steps, e.host)
    requires steps != [] && steps[|steps| - 1] == Sweep(e.host, true)
    ensures exists e' :: e' in Run(l, steps).entries && Follows(e, e') && e'.pid == DeadProcess && e'.dead
  {
    var n := |steps| - 1;
    var front := steps[..n];
    FrontSpares(l, steps, e);
    var mid := RecordStays(l, front, e);
    RunOk(l, front);
    ClearedBefore(steps, e.host);
    SparesFollower(Run(l, front), steps[n], e, mid);
    var e' := StepSpares(Run(l, front), steps[n], mid);
  }

  /**
   It stays there unaltered while the run spares it: with any slider, as long as no refresh has
   read a clock past its timeout.
   */
  lemma HistoryLasts(l: Log, steps: seq<Step>, e: Entry)
    requires Ok(l) && e in l.entries && e.pid == DeadProcess && e.timeout.Some? && AllSpare(l, steps, e)
    ensures e in Run(l, steps).entries
  {
    var e' := RecordStays(l, steps, e);
    RunOk(l, steps);
  }

  // ---------------------------------------------------------------- the end of the history

  /** Under this key there is at most a dead process of `h` without a timeout. */
  ghost predicate Lapsed(l: Log, key: nat, h: Host) {
    key < l.next && forall e :: e in l.entries && e.key == key ==> LapsedEntry(e, h)
  }

  predicate LapsedEntry(e: Entry, h: Host) {
    e.host == h && e.pid == DeadProcess && e.timeout.None?
  }

  lemma SweepStaysLapsed(l: seq<Entry>, g: Host, track: bool, key: nat, h: Host, x: Entry)
    requires forall e :: e in l && e.key == key ==> LapsedEntry(e, h)
    requires x in SweepList(l, g, track) && x.key == key
    ensures LapsedEntry(x, h) && !(g == h && !x.updated)
  {
    SweepMembers(l, g, track, x);
    var i :| 0 <= i < |l| && !Discarded(l[i], g, track) && x == Swept(l[i], g);
    assert l[i] in l;
  }

  lemma {:induction false} SweepsStayLapsed(l: seq<Entry>, hosts: seq<Host>, track: bool, key: nat, h: Host)
    requires forall e :: e in l && e.key == key ==> LapsedEntry(e, h)
    ensures forall e :: e in SweepHosts(l, hosts, track) && e.key == key ==> LapsedEntry(e, h)
  {
    if hosts != [] {
      var front, g := hosts[..|hosts| - 1], hosts[|hosts| - 1];
      SweepsStayLapsed(l, front, track, key, h);
      forall x | x in SweepHosts(l, hosts, track) && x.key == key ensures LapsedEntry(x, h) {
        SweepStaysLapsed(SweepHosts(l, front, track), g, track, key, h, x);
      }
    }
  }

  lemma StaysLapsed(l: Log, s: Step, key: nat, h: Host)
    requires Ok(l) && Possible(l, s) && Lapsed(l, key, h)
    ensures Lapsed(Do(l, s), key, h)
  {
    match s
    case Clear(g) =>
      forall x | x in ClearList(l.entries, g) && x.key == key ensures LapsedEntry(x, h) {
        var i :| 0 <= i < |l.entries| && ClearList(l.entries, g)[i] == x;
        assert l.entries[i] in l.entries;
      }
    case Put(g, u, born) => PutStaysLapsed(l, g, u, born, key, h);
    case Sweep(g, track) =>
      forall x | x in SweepList(l.entries, g, track) && x.key == key ensures LapsedEntry(x, h) {
        SweepStaysLapsed(l.entries, g, track, key, h, x);
      }
    case Refresh(active, slider, clock, track) =>
      var refreshed := RefreshEach(l.entries, active, slider, clock);
      forall x | x in refreshed && x.key == key ensures LapsedEntry(x, h) {
        var i :| 0 <= i < |refreshed| && refreshed[i] == x;
        assert l.entries[i] in l.entries;
      }
      SweepsStayLapsed(refreshed, DeadHosts(l.entries, active), track, key, h);
    case Sort(p) => SortedMembers(l.entries, p);
    case Remove(_) =>
  }

  lemma PutStaysLapsed(l: Log, g: Host, u: Update, born: real, key: nat, h: Host)
    requires Ok(l) && Applicable(u) && Lapsed(l, key, h)
    ensures Lapsed(Upsert(l, g, u, born), key, h)
  {
    var i, l' := Find(l.entries, g, PidOf(u)), Upsert(l, g, u, born);
    forall x | x in l'.entries && x.key == key ensures LapsedEntry(x, h) {
      var j :| 0 <= j < |l'.entries| && l'.entries[j] == x;
      if j < |l.entries| {
        assert l.entries[j] in l.entries;
      }
    }
  }

  lemma {:induction false} RunStaysLapsed(l: Log, steps: seq<Step>, key: nat, h: Host)
    requires Ok(l) && Lapsed(l, key, h)
    ensures Lapsed(Run(l, steps), key, h)
  {
    if steps != [] {
      var front, s := steps[..|steps| - 1], steps[|steps| - 1];
      RunStaysLapsed(l, front, key, h);
      RunOk(l, front);
      if Possible(Run(l, front), s) {
        StaysLapsed(Run(l, front), s, key, h);
      }
    }
  }

  /**
   The history ends: once a refresh with a finite slider has read a clock past the timeout of a dead
   process of an active host, the next sweep of the host removes it, whatever runs in between.
   */
  lemma HistoryExpires(l: Log, i: nat, active: set<Host>, slider: int, clock: seq<real>, track: bool,
                       between: seq<Step>, tracking: bool)
    requires Ok(l) && i < |l.entries| == |clock|
    requires l.entries[i].pid == DeadProcess && l.entries[i].host in active
    requires slider >= 0 && l.entries[i].timeout.Some? && l.entries[i].timeout.value < clock[i]
    ensures var refreshed := Do(l, Refresh(active, slider, clock, track));
      Gone(Do(Run(refreshed, between), Sweep(l.entries[i].host, tracking)).entries, l.entries[i].key)
  {
    var e, s := l.entries[i], Refresh(active, slider, clock, track);
    var refreshed := Do(l, s);
    RefreshIs(l.entries, l.next, active, slider, clock, track, i);
    DoOk(l, s);
    RunStaysLapsed(refreshed, between, e.key, e.host);
    RunOk(refreshed, between);
    var before := Run(refreshed, between);
    DoOk(before, Sweep(e.host, tracking));
    forall x | x in SweepList(before.entries, e.host, tracking) ensures x.key != e.key {
      if x.key == e.key {
        SweepStaysLapsed(before.entries, e.host, tracking, e.key, e.host, x);
      }
    }
  }

  // ---------------------------------------------------------------- deadlines

  /**
   The deadline of a row that has reached the trigger stands: over any run that spares the entry it
   was written to, the timeout is the time of the row plus the slider.
   */
  lemma {:induction false} DeadlineStands(l: Log, h: Host, row: Row, m: Moment, born: real,
                                          e: Option<Entry>, e': Entry, steps: seq<Step>)
    requires Ok(l) && row.info.Some? && IsEntryOf(e, l, h, Number(row.id))
    requires var after := Upsert(l, h, FromRow(row, m), born);
      && e' in after.entries && Matches(e', h, Number(row.id))
      && (if row.time == 2147483647 then 1 else row.time) >= m.triggerTimer
      && e'.timeout.Some? && AllSpare(after, steps, e')
    ensures var after := Upsert(l, h, FromRow(row, m), born);
      exists x :: x in Run(after, steps).entries && x.key == e'.key && x.query == Some(row)
                  && x.timeout == Some(m.now + m.slider as real)
  {
    var after := Upsert(l, h, FromRow(row, m), born);
    RowUpdate(l, h, row, m, born, e, e');
    UpsertOk(l, h, FromRow(row, m), born);
    var x := RecordStays(after, steps, e');
  }
}
