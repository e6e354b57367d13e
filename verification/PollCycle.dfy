/**
 The poll cycles of a host (mark, update, sweep), overlapping or not, interleaved with anything
 the other threads may do meanwhile: what the log shows for the host after each sweep.
 */
module PollCycle {
  import opened Common
  import opened EventLog
  import opened LogInvariant

  /** What the servers answer during one cycle. */
  datatype Outcome =
    | NoConnection
      // the rows reported, none if the query failed; the status, None if not asked for or failed
    | Connected(rows: seq<Row>, status: Option<SlaveStatus>)

  predicate Owned(s: Step, h: Host) {
    (s.Clear? && s.h == h) || (s.Put? && s.h == h) || (s.Sweep? && s.h == h)
  }

  /**
   Steps that leave the entries of `h` alone, timeouts aside: other hosts, sorting, refreshing while
   `h` is active.
   */
  predicate Foreign(s: Step, h: Host) {
    && !Owned(s, h)
    && !s.Remove?
    && (s.Refresh? ==> h in s.active)
  }

  /** The steps of a run that belong to the cycle of `h`, in order. */
  function Own(steps: seq<Step>, h: Host): seq<Step> {
    if steps == [] then []
    else
      var rest, s := Own(steps[..|steps| - 1], h), steps[|steps| - 1];
      if Owned(s, h) then rest + [s] else rest
  }

  function Passing(rows: seq<Row>, monitorTimer: int): (r: seq<Row>)
    ensures forall row :: row in r <==> row in rows && Passes(row, monitorTimer)
  {
    if rows == [] then []
    else
      var rest, row := Passing(rows[..|rows| - 1], monitorTimer), rows[|rows| - 1];
      if Passes(row, monitorTimer) then rest + [row] else rest
  }

  predicate Reports(o: Outcome) {
    o.Connected? && o.status.Some? && Lagging(o.status.value)
  }

  /** The updates between mark and sweep: `updateMySQLFail`, or the rows and then the slave status. */
  ghost predicate IsBody(body: seq<Step>, h: Host, monitorTimer: int, o: Outcome) {
    && (forall k :: 0 <= k < |body| ==> body[k].Put? && body[k].h == h)
    && match o
       case NoConnection => |body| == 1 && body[0].u.FromFail?
       case Connected(rows, status) =>
         var passing := Passing(rows, monitorTimer);
         && |body| == |passing| + (if Reports(o) then 1 else 0)
         && (forall k :: 0 <= k < |passing| ==> body[k].u.FromRow? && body[k].u.row == passing[k])
         && (Reports(o) ==> body[|passing|].u.FromSlave? && body[|passing|].u.status == status.value)
  }

  /** The steps of `generateMySQLOperation:` on the log, for the answers `o`. */
  ghost predicate IsCycle(own: seq<Step>, h: Host, monitorTimer: int, o: Outcome) {
    && |own| >= 2
    && own[0] == Clear(h)
    && own[|own| - 1].Sweep? && own[|own| - 1].h == h
    && IsBody(own[1..|own| - 1], h, monitorTimer, o)
  }

  // ---------------------------------------------------------------- marks

  /** Which process IDs have been updated since the last mark, and by what; None before the first. */
  function Marks(own: seq<Step>): Option<map<Pid, Update>> {
    if own == [] then None
    else
      match own[|own| - 1]
      case Clear(_) => Some(map[])
      case Put(_, u, _) =>
        (match Marks(own[..|own| - 1])
         case None => None
         case Some(m) => Some(if Applicable(u) then m[PidOf(u) := u] else m))
      case _ => Marks(own[..|own| - 1])
  }

  /** The entry shows what the update wrote. */
  predicate Carries(e: Entry, u: Update) {
    match u
    case FromRow(row, _) =>
      row.info.Some? && e.query == Some(row) && e.text == Some(RowText(row)) && e.duration == RowDuration(row)
    case FromSlave(status, m) =>
      e.slave == Some(status) && e.text == Some(SlaveText(status)) && e.duration == SlaveDuration(e, status, m)
    case FromFail(now) => e.duration == Truncated(now - e.since)
  }

  predicate IsLive(e: Entry, h: Host, pid: Pid) {
    e.host == h && e.pid == pid && e.updated
  }

  ghost predicate HasLive(l: seq<Entry>, h: Host, pid: Pid) {
    exists e :: e in l && IsLive(e, h, pid)
  }

  /** The updated entries of `h` are exactly those in `m`, and show what `m` says. */
  ghost predicate MarkedAs(l: seq<Entry>, h: Host, m: map<Pid, Update>) {
    && (forall e :: e in l && e.host == h && e.updated ==> e.pid in m && Carries(e, m[e.pid]))
    && (forall pid :: pid in m ==> pid.Number?)
    && (forall pid {:trigger HasLive(l, h, pid)} :: pid in m ==> HasLive(l, h, pid))
  }

  /** The same entry, but for its timeout. */
  predicate Twins(e: Entry, e': Entry) {
    e == e'.(timeout := e.timeout)
  }

  ghost predicate HasTwin(e: Entry, l: seq<Entry>) {
    exists e' :: e' in l && Twins(e, e')
  }

  /** The entries of `h` are the same in both lists, but for timeouts. */
  ghost predicate SameForHost(l: seq<Entry>, l': seq<Entry>, h: Host) {
    && (forall e {:trigger HasTwin(e, l)} :: e in l' && e.host == h ==> HasTwin(e, l))
    && (forall e {:trigger HasTwin(e, l')} :: e in l && e.host == h ==> HasTwin(e, l'))
  }

  lemma SameKeepsMarks(l: seq<Entry>, l': seq<Entry>, h: Host, m: map<Pid, Update>)
    requires MarkedAs(l, h, m) && SameForHost(l, l', h)
    ensures MarkedAs(l', h, m)
  {
    forall e' | e' in l' && e'.host == h && e'.updated ensures e'.pid in m && Carries(e', m[e'.pid]) {
      assert HasTwin(e', l);
      var e :| e in l && Twins(e', e);
    }
    forall pid | pid in m ensures HasLive(l', h, pid) {
      assert HasLive(l, h, pid);
      var e :| e in l && IsLive(e, h, pid);
      assert HasTwin(e, l');
      var e' :| e' in l' && Twins(e, e');
      assert IsLive(e', h, pid);
    }
  }

  // ---------------------------------------------------------------- steps of others

  lemma SweepOtherHost(l: seq<Entry>, g: Host, track: bool, e: Entry)
    requires e.host != g
    ensures e in SweepList(l, g, track) <==> e in l
  {
    SweepMembers(l, g, track, e);
    if e in l {
      var i :| 0 <= i < |l| && l[i] == e;
      assert !Discarded(l[i], g, track) && e == Swept(l[i], g);
    }
  }

  lemma {:induction false} SweepOtherHosts(l: seq<Entry>, hosts: seq<Host>, track: bool, e: Entry)
    requires e.host !in hosts
    ensures e in SweepHosts(l, hosts, track) <==> e in l
  {
    if hosts != [] {
      SweepOtherHosts(l, hosts[..|hosts| - 1], track, e);
      SweepOtherHost(SweepHosts(l, hosts[..|hosts| - 1], track), hosts[|hosts| - 1], track, e);
    }
  }

  lemma {:induction false} DeadHostsAreInactive(l: seq<Entry>, active: set<Host>, h: Host)
    ensures h in DeadHosts(l, active) <==> h !in active && exists e :: e in l && e.host == h
  {
    if l != [] {
      DeadHostsAreInactive(l[..|l| - 1], active, h);
      assert l == l[..|l| - 1] + [l[|l| - 1]];
    }
  }

  lemma RefreshOfActiveHost(l: seq<Entry>, active: set<Host>, slider: int, clock: seq<real>, track: bool, h: Host)
    requires h in active && |clock| == |l|
    ensures SameForHost(l, RefreshList(l, active, slider, clock, track), h)
  {
    var refreshed, l' := RefreshEach(l, active, slider, clock), RefreshList(l, active, slider, clock, track);
    forall e': Entry | e'.host == h ensures e' in l' <==> e' in refreshed {
      DeadHostsAreInactive(l, active, h);
      SweepOtherHosts(refreshed, DeadHosts(l, active), track, e');
    }
    forall e | e in l && e.host == h ensures HasTwin(e, l') {
      var i :| 0 <= i < |l| && l[i] == e;
      assert refreshed[i] in refreshed && refreshed[i] in l';
      assert Twins(e, refreshed[i]);
    }
    forall e' | e' in l' && e'.host == h ensures HasTwin(e', l) {
      var i :| 0 <= i < |refreshed| && refreshed[i] == e';
      assert l[i] in l && Twins(e', l[i]);
    }
  }

  lemma ForeignStep(l: Log, s: Step, h: Host)
    requires Possible(l, s) && Foreign(s, h)
    ensures SameForHost(l.entries, Do(l, s).entries, h)
  {
    var l' := Do(l, s);
    match s
    case Clear(g) => SamePlace(l.entries, l'.entries, h);
    case Put(g, u, born) =>
      PutOtherHost(l, g, u, born, h);
    case Sweep(g, track) =>
      forall e: Entry | e.host == h ensures e in l'.entries <==> e in l.entries {
        SweepOtherHost(l.entries, g, track, e);
      }
      SameMembers(l.entries, l'.entries, h);
    case Refresh(active, slider, clock, track) => RefreshOfActiveHost(l.entries, active, slider, clock, track, h);
    case Sort(p) =>
      SortedMembers(l.entries, p);
      SameMembers(l.entries, l'.entries, h);
  }

  lemma SameMembers(l: seq<Entry>, l': seq<Entry>, h: Host)
    requires forall e: Entry :: e.host == h ==> (e in l' <==> e in l)
    ensures SameForHost(l, l', h)
  {
    forall e | e in l && e.host == h ensures HasTwin(e, l') {
      assert e in l' && Twins(e, e);
    }
    forall e | e in l' && e.host == h ensures HasTwin(e, l) {
      assert e in l && Twins(e, e);
    }
  }

  lemma SamePlace(l: seq<Entry>, l': seq<Entry>, h: Host)
    requires |l| <= |l'|
    requires forall i :: 0 <= i < |l| ==> l'[i].host == l[i].host && (l[i].host == h ==> l'[i] == l[i])
    requires forall i :: |l| <= i < |l'| ==> l'[i].host != h
    ensures SameForHost(l, l', h)
  {
    forall e: Entry | e.host == h ensures e in l' <==> e in l {
      if e in l {
        var i :| 0 <= i < |l| && l[i] == e;
        assert l'[i] == e;
      }
    }
    SameMembers(l, l', h);
  }

  lemma PutOtherHost(l: Log, g: Host, u: Update, born: real, h: Host)
    requires Applicable(u) && g != h
    ensures SameForHost(l.entries, Upsert(l, g, u, born).entries, h)
  {
    SamePlace(l.entries, Upsert(l, g, u, born).entries, h);
  }

  lemma SortedMembers(l: seq<Entry>, p: seq<nat>)
    requires IsPermutation(p, |l|)
    ensures forall e :: e in Sorted(l, p) <==> e in l
  {
    forall e | e in l ensures e in Sorted(l, p) {
      var k :| 0 <= k < |l| && l[k] == e;
      assert k in p;
      var i :| 0 <= i < |p| && p[i] == k;
      assert Sorted(l, p)[i] == e;
    }
  }

  // ---------------------------------------------------------------- steps of the cycle

  lemma ClearMarks(l: seq<Entry>, h: Host)
    ensures MarkedAs(ClearList(l, h), h, map[])
  {
  }

  // The other entries of `h`, marked or not, are under other process IDs.
  lemma OnlyOneMatches(l: seq<Entry>, next: nat, h: Host, pid: Pid, j: nat)
    requires ListOk(l, next) && j < |l| && Matches(l[j], h, pid) && pid.Number?
    ensures j == Find(l, h, pid)
  {
    var i := Find(l, h, pid);
    assert i < |l|;
    ApartAt(l, next, i, j);
  }

  lemma PutMarks(l: Log, h: Host, u: Update, born: real, m: map<Pid, Update>)
    requires Ok(l) && Applicable(u) && MarkedAs(l.entries, h, m)
    ensures MarkedAs(Upsert(l, h, u, born).entries, h, m[PidOf(u) := u])
  {
    var i, l' := Find(l.entries, h, PidOf(u)), Upsert(l, h, u, born).entries;
    assert Carries(l'[i], u) && IsLive(l'[i], h, PidOf(u));
    forall e | e in l' && e.host == h && e.updated
      ensures e.pid in m[PidOf(u) := u] && Carries(e, m[PidOf(u) := u][e.pid])
    {
      var j :| 0 <= j < |l'| && l'[j] == e;
      if j != i {
        assert l.entries[j] == e && e in l.entries;
        if e.pid == PidOf(u) {
          OnlyOneMatches(l.entries, l.next, h, PidOf(u), j);
        }
      }
    }
    forall pid | pid in m && pid != PidOf(u) ensures HasLive(l', h, pid) {
      assert HasLive(l.entries, h, pid);
      var e :| e in l.entries && IsLive(e, h, pid);
      var j :| 0 <= j < |l.entries| && l.entries[j] == e;
      assert l'[j] == e;
    }
    assert HasLive(l', h, PidOf(u));
  }

  // ---------------------------------------------------------------- any step at all

  /** The user removes the entry of the failed connection of `h`. */
  predicate Drops(l: seq<Entry>, s: Step, h: Host) {
    s.Remove? && s.i < |l| && Matches(l[s.i], h, NO_CONNECTION)
  }

  /** Which process IDs of `h` are marked after a run, and by what; None before its first mark. */
  function MarksAfter(l: Log, steps: seq<Step>, h: Host): Option<map<Pid, Update>> {
    if steps == [] then None
    else
      var front, s := steps[..|steps| - 1], steps[|steps| - 1];
      match MarksAfter(l, front, h)
      case None => if s == Clear(h) then Some(map[]) else None
      case Some(m) => Some(StepMarks(Run(l, front).entries, s, h, m))
  }

  /** What one step does to the marks. */
  function StepMarks(l: seq<Entry>, s: Step, h: Host, m: map<Pid, Update>): map<Pid, Update> {
    match s
    case Clear(g) => if g == h then map[] else m
    case Put(g, u, _) => if g == h && Applicable(u) then m[PidOf(u) := u] else m
    case Remove(_) => if Drops(l, s, h) then m - {NO_CONNECTION} else m
    case _ => m
  }

  lemma RemovalMarks(l: seq<Entry>, next: nat, s: Step, h: Host, m: map<Pid, Update>)
    requires ListOk(l, next) && MarkedAs(l, h, m) && s.Remove?
    ensures MarkedAs(RemoveSelected(l, s.i), h, if Drops(l, s, h) then m - {NO_CONNECTION} else m)
  {
    var l', i := RemoveSelected(l, s.i), s.i;
    var m' := if Drops(l, s, h) then m - {NO_CONNECTION} else m;
    if l' != l {
      forall e | e in l' && e.host == h && e.updated ensures e.pid in m' && Carries(e, m'[e.pid]) {
        var j :| 0 <= j < |l| && j != i && l[j] == e;
        ApartAt(l, next, i, j);
      }
      forall pid | pid in m' ensures HasLive(l', h, pid) {
        assert HasLive(l, h, pid);
        var e :| e in l && IsLive(e, h, pid);
        var j :| 0 <= j < |l| && l[j] == e;
        assert j != i;
        assert l'[if j < i then j else j - 1] == e;
      }
    }
  }

  lemma {:induction false} SweepsKeepMarks(l: seq<Entry>, hosts: seq<Host>, track: bool, h: Host, m: map<Pid, Update>)
    requires MarkedAs(l, h, m)
    ensures MarkedAs(SweepHosts(l, hosts, track), h, m)
  {
    if hosts != [] {
      var front, g := hosts[..|hosts| - 1], hosts[|hosts| - 1];
      var before := SweepHosts(l, front, track);
      SweepsKeepMarks(l, front, track, h, m);
      if g == h {
        SweepLeavesMarked(before, h, track, m);
      } else {
        forall e: Entry | e.host == h ensures e in SweepList(before, g, track) <==> e in before {
          SweepOtherHost(before, g, track, e);
        }
        SameMembers(before, SweepList(before, g, track), h);
        SameKeepsMarks(before, SweepList(before, g, track), h, m);
      }
    }
  }

  // A refresh changes no mark, whether the host is active or not.
  lemma RefreshKeepsMarks(l: seq<Entry>, active: set<Host>, slider: int, clock: seq<real>, track: bool,
                          h: Host, m: map<Pid, Update>)
    requires |clock| == |l| && MarkedAs(l, h, m)
    ensures MarkedAs(RefreshList(l, active, slider, clock, track), h, m)
  {
    var refreshed := RefreshEach(l, active, slider, clock);
    forall e | e in refreshed && e.host == h && e.updated ensures e.pid in m && Carries(e, m[e.pid]) {
      var i :| 0 <= i < |refreshed| && refreshed[i] == e;
      assert l[i] in l;
    }
    forall pid | pid in m ensures HasLive(refreshed, h, pid) {
      assert HasLive(l, h, pid);
      var e :| e in l && IsLive(e, h, pid);
      var i :| 0 <= i < |l| && l[i] == e;
      assert refreshed[i] in refreshed && IsLive(refreshed[i], h, pid);
    }
    SweepsKeepMarks(refreshed, DeadHosts(l, active), track, h, m);
  }

  lemma StepKeepsMarks(l: Log, s: Step, h: Host, m: map<Pid, Update>)
    requires Ok(l) && Possible(l, s) && MarkedAs(l.entries, h, m)
    ensures MarkedAs(Do(l, s).entries, h, StepMarks(l.entries, s, h, m))
  {
    if Foreign(s, h) {
      ForeignStep(l, s, h);
      SameKeepsMarks(l.entries, Do(l, s).entries, h, m);
    } else {
      match s
      case Clear(_) => ClearMarks(l.entries, h);
      case Put(_, u, born) => PutMarks(l, h, u, born, m);
      case Sweep(_, track) => SweepLeavesMarked(l.entries, h, track, m);
      case Refresh(active, slider, clock, track) =>
        RefreshKeepsMarks(l.entries, active, slider, clock, track, h, m);
      case Remove(_) => RemovalMarks(l.entries, l.next, s, h, m);
    }
  }

  /** In every run of any steps, the updated entries of `h` are exactly those marked, and show the update. */
  lemma {:induction false} MarksHold(l: Log, steps: seq<Step>, h: Host)
    requires Ok(l) && MarksAfter(l, steps, h).Some?
    ensures MarkedAs(Run(l, steps).entries, h, MarksAfter(l, steps, h).value)
  {
    var front, s := steps[..|steps| - 1], steps[|steps| - 1];
    var before := Run(l, front);
    RunOk(l, front);
    match MarksAfter(l, front, h)
    case None => ClearMarks(before.entries, h);
    case Some(m) =>
      MarksHold(l, front, h);
      if Possible(before, s) {
        StepKeepsMarks(before, s, h, m);
      }
  }

  // ---------------------------------------------------------------- after a sweep

  /** The log shows a live process `pid` for `h`. */
  ghost predicate Shows(l: seq<Entry>, h: Host, pid: Pid) {
    pid.Number? && exists e :: e in l && Matches(e, h, pid)
  }

  /** What the log should show for `h` after a cycle with the answers `o`. */
  ghost predicate Expected(o: Outcome, monitorTimer: int, pid: Pid) {
    match o
    case NoConnection => pid == Number(-2)
    case Connected(rows, status) =>
      || (exists row :: row in rows && row.info.Some? && row.time > monitorTimer && pid == Number(row.id))
      || (pid == Number(-1) && status.Some?
          && (status.value.behind > 1 || !status.value.sqlRunning || !status.value.ioRunning))
  }

  /** The sweep leaves exactly the updated entries of its host alive, and leaves them as they are. */
  lemma SweepLeavesMarked(l: seq<Entry>, h: Host, track: bool, m: map<Pid, Update>)
    requires MarkedAs(l, h, m)
    ensures MarkedAs(SweepList(l, h, track), h, m)
    ensures forall pid :: Shows(SweepList(l, h, track), h, pid) <==> pid in m
  {
    var l' := SweepList(l, h, track);
    forall e | e in l' && e.host == h && (e.updated || e.pid.Number?)
      ensures e.updated && e.pid in m && Carries(e, m[e.pid])
    {
      SweepMembers(l, h, track, e);
      var i :| 0 <= i < |l| && !Discarded(l[i], h, track) && e == Swept(l[i], h);
      assert l[i] in l;
    }
    forall pid | pid in m ensures HasLive(l', h, pid) && Shows(l', h, pid) {
      assert HasLive(l, h, pid);
      var e :| e in l && IsLive(e, h, pid);
      var i :| 0 <= i < |l| && l[i] == e;
      SweepMembers(l, h, track, e);
      assert !Discarded(l[i], h, track) && e == Swept(l[i], h);
      assert IsLive(e, h, pid) && Matches(e, h, pid);
    }
  }

  predicate Updates(s: Step, pid: Pid) {
    s.Put? && Applicable(s.u) && PidOf(s.u) == pid
  }

  /** Step `k` updates `pid`, and there is no mark after it. */
  ghost predicate PutAt(own: seq<Step>, k: int, pid: Pid) {
    && 0 <= k < |own| && Updates(own[k], pid)
    && forall j :: k < j < |own| ==> !own[j].Clear?
  }

  ghost predicate LastPutAt(own: seq<Step>, k: int, pid: Pid) {
    PutAt(own, k, pid) && forall j :: k < j < |own| ==> !Updates(own[j], pid)
  }

  /** The marks are the updates after the last mark, the last one for each process ID. */
  lemma {:induction false} MarksArePuts(own: seq<Step>)
    requires Marks(own).Some?
    ensures forall pid :: pid in Marks(own).value <==> exists k :: PutAt(own, k, pid)
    ensures forall k, pid :: LastPutAt(own, k, pid) ==> pid in Marks(own).value && Marks(own).value[pid] == own[k].u
  {
    var n := |own| - 1;
    var front, s := own[..n], own[n];
    if !s.Clear? {
      MarksArePuts(front);
      forall pid: Pid ensures pid in Marks(own).value <==> exists k :: PutAt(own, k, pid) {
        if k :| PutAt(front, k, pid) {
          assert PutAt(own, k, pid);
        }
        if k :| PutAt(own, k, pid) {
          assert k < n ==> PutAt(front, k, pid);
        }
        assert Updates(s, pid) ==> PutAt(own, n, pid);
      }
      forall k, pid | LastPutAt(own, k, pid)
        ensures pid in Marks(own).value && Marks(own).value[pid] == own[k].u
      {
        assert PutAt(own, k, pid);
        assert k < n ==> LastPutAt(front, k, pid);
      }
    }
  }

  lemma UpdatesAreExpected(own: seq<Step>, h: Host, monitorTimer: int, o: Outcome, k: int, pid: Pid)
    requires IsCycle(own, h, monitorTimer, o) && PutAt(own, k, pid)
    ensures Expected(o, monitorTimer, pid)
  {
    var body := own[1..|own| - 1];
    assert own[k] == body[k - 1];
    if o.Connected? {
      var passing := Passing(o.rows, monitorTimer);
      if k - 1 < |passing| {
        assert passing[k - 1] in passing;
      }
    }
  }

  lemma ExpectedIsUpdated(own: seq<Step>, h: Host, monitorTimer: int, o: Outcome, pid: Pid)
    requires IsCycle(own, h, monitorTimer, o) && Expected(o, monitorTimer, pid)
    ensures exists k :: PutAt(own, k, pid)
  {
    var body := own[1..|own| - 1];
    assert forall k :: 1 <= k < |own| - 1 ==> own[k] == body[k - 1];
    match o
    case NoConnection =>
      assert PutAt(own, 1, pid);
    case Connected(rows, status) =>
      var passing := Passing(rows, monitorTimer);
      if row :| row in rows && Passes(row, monitorTimer) && pid == Number(row.id) {
        assert row in passing;
        var k :| 0 <= k < |passing| && passing[k] == row;
        assert PutAt(own, k + 1, pid);
      } else {
        assert PutAt(own, |passing| + 1, pid);
      }
  }

  // A cycle updates exactly the process IDs expected of its outcome.
  lemma BodyUpdates(own: seq<Step>, h: Host, monitorTimer: int, o: Outcome, pid: Pid)
    requires IsCycle(own, h, monitorTimer, o)
    ensures (exists k :: PutAt(own, k, pid)) <==> Expected(o, monitorTimer, pid)
  {
    if k :| PutAt(own, k, pid) {
      UpdatesAreExpected(own, h, monitorTimer, o, k, pid);
    }
    if Expected(o, monitorTimer, pid) {
      ExpectedIsUpdated(own, h, monitorTimer, o, pid);
    }
  }

  /**
   A run of any steps at all that ends with a sweep of `h`, after at least one mark: any number of
   cycles of `h`, complete or not, overlapping in any way, among anything that other threads do.
   */
  ghost predicate EndsWithSweep(steps: seq<Step>, h: Host) {
    && steps != []
    && steps[|steps| - 1].Sweep? && steps[|steps| - 1].h == h
    && exists k :: 0 <= k < |steps| && steps[k] == Clear(h)
  }

  /** Step `k` updates process `pid` of `h`. */
  predicate UpdatesAt(steps: seq<Step>, h: Host, k: int, pid: Pid) {
    0 <= k < |steps| && Updates(steps[k], pid) && steps[k].h == h
  }

  /** Step `j` ends what was known of process `pid` of `h`: a new mark, or the user removes its entry. */
  predicate Forgets(l: Log, steps: seq<Step>, h: Host, j: int, pid: Pid) {
    && 0 <= j < |steps|
    && (steps[j] == Clear(h) || (pid == NO_CONNECTION && Drops(Run(l, steps[..j]).entries, steps[j], h)))
  }

  ghost predicate UpdatedSince(l: Log, steps: seq<Step>, h: Host, k: int, pid: Pid) {
    UpdatesAt(steps, h, k, pid) && forall j :: k < j < |steps| ==> !Forgets(l, steps, h, j, pid)
  }

  ghost predicate LastUpdatedAt(l: Log, steps: seq<Step>, h: Host, k: int, pid: Pid) {
    UpdatedSince(l, steps, h, k, pid) && forall j :: k < j < |steps| ==> !UpdatesAt(steps, h, j, pid)
  }

  lemma PrefixAgrees(l: Log, steps: seq<Step>, n: nat, h: Host, j: int, pid: Pid)
    requires j < n <= |steps|
    ensures Forgets(l, steps[..n], h, j, pid) <==> Forgets(l, steps, h, j, pid)
    ensures UpdatesAt(steps[..n], h, j, pid) <==> UpdatesAt(steps, h, j, pid)
  {
    if 0 <= j {
      assert steps[..n][..j] == steps[..j];
    }
  }

  // What one more step means for an update before it.
  lemma OneMoreStep(l: Log, steps: seq<Step>, h: Host, k: int, pid: Pid)
    requires steps != [] && k < |steps| - 1
    ensures var front := steps[..|steps| - 1];
      && (UpdatedSince(l, steps, h, k, pid) <==>
            UpdatedSince(l, front, h, k, pid) && !Forgets(l, steps, h, |steps| - 1, pid))
      && (LastUpdatedAt(l, steps, h, k, pid) ==>
            LastUpdatedAt(l, front, h, k, pid) && !UpdatesAt(steps, h, |steps| - 1, pid))
  {
    var n := |steps| - 1;
    forall j | j < n
      ensures Forgets(l, steps[..n], h, j, pid) <==> Forgets(l, steps, h, j, pid)
      ensures UpdatesAt(steps[..n], h, j, pid) <==> UpdatesAt(steps, h, j, pid)
    {
      PrefixAgrees(l, steps, n, h, j, pid);
    }
  }

  // The last step: it marks, or it forgets, or neither.
  lemma LastStep(l: Log, steps: seq<Step>, h: Host, pid: Pid)
    requires MarksAfter(l, steps, h).Some?
    ensures var n, m := |steps| - 1, MarksAfter(l, steps, h).value; var before := MarksAfter(l, steps[..n], h);
      && (UpdatesAt(steps, h, n, pid) ==> before.Some? && pid in m && m[pid] == steps[n].u)
      && (Forgets(l, steps, h, n, pid) ==> pid !in m)
      && (!UpdatesAt(steps, h, n, pid) && !Forgets(l, steps, h, n, pid) ==>
            before.Some? && (pid in m <==> pid in before.value) && (pid in m ==> m[pid] == before.value[pid]))
  {
  }

  /** A process ID is marked after a run iff an update of it has not been ended since. */
  lemma {:induction false} MarkedIff(l: Log, steps: seq<Step>, h: Host, pid: Pid)
    requires MarksAfter(l, steps, h).Some?
    ensures pid in MarksAfter(l, steps, h).value <==> exists k :: UpdatedSince(l, steps, h, k, pid)
  {
    var n := |steps| - 1;
    LastStep(l, steps, h, pid);
    forall k | k < n
      ensures UpdatedSince(l, steps, h, k, pid) <==>
                UpdatedSince(l, steps[..n], h, k, pid) && !Forgets(l, steps, h, n, pid)
    {
      OneMoreStep(l, steps, h, k, pid);
    }
    if UpdatesAt(steps, h, n, pid) {
      assert UpdatedSince(l, steps, h, n, pid);
    } else if !Forgets(l, steps, h, n, pid) {
      MarkedIff(l, steps[..n], h, pid);
      if k :| UpdatedSince(l, steps[..n], h, k, pid) {
        assert UpdatedSince(l, steps, h, k, pid);
      }
    }
  }

  /** What is marked is the last update. */
  lemma {:induction false} MarkIsLast(l: Log, steps: seq<Step>, h: Host, k: int, pid: Pid)
    requires MarksAfter(l, steps, h).Some? && LastUpdatedAt(l, steps, h, k, pid)
    ensures pid in MarksAfter(l, steps, h).value && MarksAfter(l, steps, h).value[pid] == steps[k].u
  {
    var n := |steps| - 1;
    LastStep(l, steps, h, pid);
    if k < n {
      OneMoreStep(l, steps, h, k, pid);
      MarkIsLast(l, steps[..n], h, k, pid);
    }
  }

  // There are marks once there has been a mark.
  lemma {:induction false} MarkedOnce(l: Log, steps: seq<Step>, h: Host)
    requires exists k :: 0 <= k < |steps| && steps[k] == Clear(h)
    ensures MarksAfter(l, steps, h).Some?
  {
    var n := |steps| - 1;
    var k :| 0 <= k < |steps| && steps[k] == Clear(h);
    if k < n {
      assert steps[..n][k] == Clear(h);
      MarkedOnce(l, steps[..n], h);
    }
  }

  // After the sweep the marks are still there, and nothing else is alive.
  lemma SweepEnds(l: Log, steps: seq<Step>, h: Host) returns (m: map<Pid, Update>)
    requires Ok(l) && EndsWithSweep(steps, h)
    ensures MarksAfter(l, steps, h) == Some(m)
    ensures MarkedAs(Run(l, steps).entries, h, m)
    ensures forall pid :: Shows(Run(l, steps).entries, h, pid) <==> pid in m
  {
    var front, s := steps[..|steps| - 1], steps[|steps| - 1];
    MarkedOnce(l, steps, h);
    MarksHold(l, front, h);
    m := MarksAfter(l, front, h).value;
    SweepLeavesMarked(Run(l, front).entries, h, s.track, m);
  }

  /**
   Exactness, however many cycles of `h` overlap and whatever else happens, user removals and a host
   made inactive included: after every sweep of `h` its live process IDs are exactly those updated
   since its last mark, each once, but for a failed connection the user has removed since.
   */
  lemma SweepIsExact(l: Log, steps: seq<Step>, h: Host)
    requires Ok(l) && EndsWithSweep(steps, h)
    ensures Ok(Run(l, steps))
    ensures forall pid :: Shows(Run(l, steps).entries, h, pid) <==> exists k :: UpdatedSince(l, steps, h, k, pid)
  {
    RunOk(l, steps);
    var m := SweepEnds(l, steps, h);
    forall pid ensures pid in m <==> exists k :: UpdatedSince(l, steps, h, k, pid) {
      MarkedIff(l, steps, h, pid);
    }
  }

  /** And each of them shows what was written last under its process ID. */
  lemma SweepShowsLastReport(l: Log, steps: seq<Step>, h: Host, k: nat, e: Entry)
    requires Ok(l) && EndsWithSweep(steps, h)
    requires k < |steps| && steps[k].Put? && LastUpdatedAt(l, steps, h, k, PidOf(steps[k].u))
    requires e in Run(l, steps).entries && Matches(e, h, PidOf(steps[k].u))
    ensures Carries(e, steps[k].u)
  {
    var m := SweepEnds(l, steps, h);
    MarkIsLast(l, steps, h, k, PidOf(steps[k].u));
    ShowsMark(l, steps, h, m, e);
  }

  // The one entry of a marked process shows its mark.
  lemma ShowsMark(l: Log, steps: seq<Step>, h: Host, m: map<Pid, Update>, e: Entry)
    requires Ok(l) && MarkedAs(Run(l, steps).entries, h, m)
    requires e in Run(l, steps).entries && e.host == h && e.pid in m
    ensures Carries(e, m[e.pid])
  {
    var after := Run(l, steps);
    assert HasLive(after.entries, h, e.pid);
    var live :| live in after.entries && IsLive(live, h, e.pid);
    RunOk(l, steps);
    OnlyOneEntry(after.entries, after.next, h, e.pid, e, live);
  }

  lemma OnlyOneEntry(l: seq<Entry>, next: nat, h: Host, pid: Pid, a: Entry, b: Entry)
    requires ListOk(l, next) && pid.Number?
    requires a in l && Matches(a, h, pid) && b in l && Matches(b, h, pid)
    ensures a == b
  {
    var i :| 0 <= i < |l| && l[i] == a;
    var j :| 0 <= j < |l| && l[j] == b;
    OnlyOneMatches(l, next, h, pid, i);
    OnlyOneMatches(l, next, h, pid, j);
  }

  // ---------------------------------------------------------------- a single cycle

  /** A run in which the steps of `h` are one cycle, ending with its sweep, among any steps of other threads. */
  ghost predicate IsCycleRun(steps: seq<Step>, h: Host, monitorTimer: int, o: Outcome) {
    && steps != []
    && Owned(steps[|steps| - 1], h)
    && IsCycle(Own(steps, h), h, monitorTimer, o)
  }

  /** The user removes no entry of a failed connection of `h` during the run. */
  ghost predicate NoneDropped(l: Log, steps: seq<Step>, h: Host) {
    forall j {:trigger steps[..j]} :: 0 <= j < |steps| ==> !Drops(Run(l, steps[..j]).entries, steps[j], h)
  }

  /** The marks after a run are those of the steps of `h` alone, but for a failed connection that was removed. */
  predicate Agree(all: Option<map<Pid, Update>>, own: Option<map<Pid, Update>>) {
    && (all.Some? <==> own.Some?)
    && (all.Some? ==>
          && (forall pid :: pid in all.value ==> pid in own.value && all.value[pid] == own.value[pid])
          && (forall pid :: pid in own.value && pid != NO_CONNECTION ==> pid in all.value))
  }

  // The last step of the host is the last of its own.
  lemma OwnLast(steps: seq<Step>, h: Host)
    requires steps != []
    ensures var n := |steps| - 1; var own := Own(steps, h);
      if Owned(steps[n], h)
      then own != [] && own[|own| - 1] == steps[n] && own[..|own| - 1] == Own(steps[..n], h)
      else own == Own(steps[..n], h)
  {
  }

  lemma {:induction false} MarksAgree(l: Log, steps: seq<Step>, h: Host)
    ensures Agree(MarksAfter(l, steps, h), Marks(Own(steps, h)))
  {
    if steps != [] {
      MarksAgree(l, steps[..|steps| - 1], h);
      OwnLast(steps, h);
    }
  }

  lemma FrontNoneDropped(l: Log, steps: seq<Step>, h: Host)
    requires steps != [] && NoneDropped(l, steps, h)
    ensures NoneDropped(l, steps[..|steps| - 1], h)
    ensures !Drops(Run(l, steps[..|steps| - 1]).entries, steps[|steps| - 1], h)
  {
    var n := |steps| - 1;
    var front := steps[..n];
    forall j {:trigger front[..j]} | 0 <= j < n ensures !Drops(Run(l, front[..j]).entries, front[j], h) {
      assert front[..j] == steps[..j];
    }
  }

  lemma {:induction false} MarksEqual(l: Log, steps: seq<Step>, h: Host)
    requires NoneDropped(l, steps, h)
    ensures MarksAfter(l, steps, h) == Marks(Own(steps, h))
  {
    if steps != [] {
      FrontNoneDropped(l, steps, h);
      MarksEqual(l, steps[..|steps| - 1], h);
      OwnLast(steps, h);
    }
  }

  lemma BodyIsApplicable(own: seq<Step>, h: Host, monitorTimer: int, o: Outcome)
    requires IsCycle(own, h, monitorTimer, o)
    ensures forall s :: s in own && s.Put? ==> Applicable(s.u)
  {
    var body := own[1..|own| - 1];
    forall s | s in own && s.Put? ensures Applicable(s.u) {
      var k :| 0 <= k < |own| && own[k] == s;
      assert s == body[k - 1];
      if o.Connected? && k - 1 < |Passing(o.rows, monitorTimer)| {
        assert Passing(o.rows, monitorTimer)[k - 1] in Passing(o.rows, monitorTimer);
      }
    }
  }

  lemma {:induction false} OwnIsThere(steps: seq<Step>, h: Host, x: Step)
    requires x in Own(steps, h)
    ensures exists k :: 0 <= k < |steps| && steps[k] == x
  {
    var n := |steps| - 1;
    if x in Own(steps[..n], h) {
      OwnIsThere(steps[..n], h, x);
      var k :| 0 <= k < n && steps[..n][k] == x;
      assert steps[k] == x;
    }
  }

  lemma CycleRunEnds(steps: seq<Step>, h: Host, monitorTimer: int, o: Outcome)
    requires IsCycleRun(steps, h, monitorTimer, o)
    ensures EndsWithSweep(steps, h)
  {
    var own := Own(steps, h);
    assert own[|own| - 1] == steps[|steps| - 1];
    OwnIsThere(steps, h, own[0]);
  }

  /**
   Poll-cycle exactness: whatever the log held and whatever other threads did meanwhile, after
   the cycle the live process IDs of `h` are exactly those the servers reported, each once, but for
   a failed connection the user has removed.
   */
  lemma CycleIsExact(l: Log, steps: seq<Step>, h: Host, monitorTimer: int, o: Outcome)
    requires Ok(l) && IsCycleRun(steps, h, monitorTimer, o)
    ensures Ok(Run(l, steps))
    ensures forall pid :: Shows(Run(l, steps).entries, h, pid) ==> Expected(o, monitorTimer, pid)
    ensures forall pid :: Expected(o, monitorTimer, pid) && (pid != NO_CONNECTION || NoneDropped(l, steps, h)) ==>
              Shows(Run(l, steps).entries, h, pid)
  {
    RunOk(l, steps);
    CycleRunEnds(steps, h, monitorTimer, o);
    var m := SweepEnds(l, steps, h);
    MarksAgree(l, steps, h);
    if NoneDropped(l, steps, h) {
      MarksEqual(l, steps, h);
    }
    MarksArePuts(Own(steps, h));
    BodyIsApplicable(Own(steps, h), h, monitorTimer, o);
    forall pid ensures pid in Marks(Own(steps, h)).value <==> Expected(o, monitorTimer, pid) {
      BodyUpdates(Own(steps, h), h, monitorTimer, o, pid);
    }
  }

  /** And each of them shows what was reported last under its process ID. */
  lemma CycleShowsLastReport(l: Log, steps: seq<Step>, h: Host, monitorTimer: int, o: Outcome, k: nat, e: Entry)
    requires Ok(l) && IsCycleRun(steps, h, monitorTimer, o)
    requires var own := Own(steps, h);
      && 1 <= k < |own| - 1 && own[k].Put?
      && (forall j: nat :: k < j < |own| - 1 && own[j].Put? ==> PidOf(own[j].u) != PidOf(own[k].u))
      && e in Run(l, steps).entries && Matches(e, h, PidOf(own[k].u))
    ensures Carries(e, Own(steps, h)[k].u)
  {
    var own := Own(steps, h);
    assert forall j :: 1 <= j < |own| - 1 ==> own[j] == own[1..|own| - 1][j - 1];
    CycleRunEnds(steps, h, monitorTimer, o);
    BodyIsApplicable(own, h, monitorTimer, o);
    var m := SweepEnds(l, steps, h);
    MarksAgree(l, steps, h);
    MarksArePuts(own);
    assert LastPutAt(own, k, PidOf(own[k].u));
    assert Shows(Run(l, steps).entries, h, e.pid);
    ShowsMark(l, steps, h, m, e);
  }
}
