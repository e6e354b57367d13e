/**
 What every critical section keeps, hence what holds in every reachable state of the log under
 every interleaving: no two live entries of one host share a process ID, and every dead
 process is marked dead.  Entries are never revived.
 */
module LogInvariant {
  import opened Common
  import opened EventLog

  /** Two different entries: different objects, never the same live process of one host. */
  predicate Apart(a: Entry, b: Entry) {
    && a.key != b.key
    && (a.host == b.host && a.pid == b.pid ==> a.pid == DeadProcess)
  }

  predicate Sound(e: Entry, next: nat) {
    e.key < next && (e.pid == DeadProcess ==> e.dead && !e.updated)
  }

  ghost predicate ListOk(l: seq<Entry>, next: nat) {
    && (forall i :: 0 <= i < |l| ==> Sound(l[i], next))
    && (forall i, j :: 0 <= i < j < |l| ==> Apart(l[i], l[j]))
  }

  ghost predicate Ok(l: Log) {
    ListOk(l.entries, l.next)
  }

  lemma ApartAt(l: seq<Entry>, next: nat, i: nat, j: nat)
    requires ListOk(l, next) && i < |l| && j < |l|
    ensures i != j ==> Apart(l[i], l[j])
  {
    assert i < j ==> Apart(l[i], l[j]);
    assert j < i ==> Apart(l[j], l[i]);
  }

  lemma {:induction false} SweepOk(l: seq<Entry>, h: Host, track: bool, next: nat)
    requires ListOk(l, next)
    ensures ListOk(SweepList(l, h, track), next)
  {
    if l != [] {
      var rest, e := l[..|l| - 1], l[|l| - 1];
      SweepOk(rest, h, track, next);
      var swept := SweepList(rest, h, track);
      forall i | 0 <= i < |swept| ensures Apart(swept[i], Swept(e, h)) {
        assert swept[i] in swept;
        SweepMembers(rest, h, track, swept[i]);
      }
    }
  }

  lemma {:induction false} SweepHostsOk(l: seq<Entry>, hosts: seq<Host>, track: bool, next: nat)
    requires ListOk(l, next)
    ensures ListOk(SweepHosts(l, hosts, track), next)
  {
    if hosts != [] {
      SweepHostsOk(l, hosts[..|hosts| - 1], track, next);
      SweepOk(SweepHosts(l, hosts[..|hosts| - 1], track), hosts[|hosts| - 1], track, next);
    }
  }

  lemma UpsertOk(l: Log, h: Host, u: Update, born: real)
    requires Ok(l) && Applicable(u)
    ensures Ok(Upsert(l, h, u, born))
  {
    var i, l' := Find(l.entries, h, PidOf(u)), Upsert(l, h, u, born);
    forall j, k | 0 <= j < k < |l'.entries| ensures Apart(l'.entries[j], l'.entries[k]) {
      if i < |l.entries| {
        assert Apart(l.entries[j], l.entries[k]);
      } else if k < |l.entries| {
        assert Apart(l.entries[j], l.entries[k]);
      } else {
        assert !Matches(l.entries[j], h, PidOf(u));
      }
    }
  }

  lemma RefreshOk(l: seq<Entry>, active: set<Host>, slider: int, clock: seq<real>, track: bool, next: nat)
    requires ListOk(l, next) && |clock| == |l|
    ensures ListOk(RefreshList(l, active, slider, clock, track), next)
  {
    var refreshed := RefreshEach(l, active, slider, clock);
    forall i, j | 0 <= i < j < |refreshed| ensures Apart(refreshed[i], refreshed[j]) {
      assert Apart(l[i], l[j]);
    }
    SweepHostsOk(refreshed, DeadHosts(l, active), track, next);
  }

  lemma SortOk(l: seq<Entry>, p: seq<nat>, next: nat)
    requires ListOk(l, next) && IsPermutation(p, |l|)
    ensures ListOk(Sorted(l, p), next)
  {
    forall i, j | 0 <= i < j < |p| ensures Apart(l[p[i]], l[p[j]]) {
      ApartAt(l, next, p[i], p[j]);
    }
  }

  lemma ClearOk(l: seq<Entry>, h: Host, next: nat)
    requires ListOk(l, next)
    ensures ListOk(ClearList(l, h), next)
  {
    forall i, j | 0 <= i < j < |l| ensures Apart(Unmarked(l[i], h), Unmarked(l[j], h)) {
      assert Apart(l[i], l[j]);
    }
  }

  lemma DoOk(l: Log, s: Step)
    requires Ok(l) && Possible(l, s)
    ensures Ok(Do(l, s))
  {
    match s
    case Clear(h) => ClearOk(l.entries, h, l.next);
    case Put(h, u, born) => UpsertOk(l, h, u, born);
    case Sweep(h, track) => SweepOk(l.entries, h, track, l.next);
    case Refresh(active, slider, clock, track) =>
      RefreshOk(l.entries, active, slider, clock, track, l.next);
    case Sort(p) => SortOk(l.entries, p, l.next);
    case _ =>
  }

  lemma {:induction false} RunOk(l: Log, steps: seq<Step>)
    requires Ok(l)
    ensures Ok(Run(l, steps))
  {
    if steps != [] {
      RunOk(l, steps[..|steps| - 1]);
      var before, s := Run(l, steps[..|steps| - 1]), steps[|steps| - 1];
      if Possible(before, s) {
        DoOk(before, s);
      }
    }
  }

  /** In every reachable state, whatever the cycles, overlapping or not, that led to it. */
  lemma LiveEntriesAreUnique(steps: seq<Step>, i: nat, j: nat)
    requires var l := Run(EMPTY, steps).entries;
      i < j < |l| && l[i].host == l[j].host && l[i].pid == l[j].pid
    ensures Run(EMPTY, steps).entries[i].pid == DeadProcess
  {
    RunOk(EMPTY, steps);
    assert Apart(Run(EMPTY, steps).entries[i], Run(EMPTY, steps).entries[j]);
  }

  lemma DeadProcessesAreDead(steps: seq<Step>, e: Entry)
    requires e in Run(EMPTY, steps).entries && e.pid == DeadProcess
    ensures e.dead && !e.updated
  {
    RunOk(EMPTY, steps);
  }

  // ---------------------------------------------------------------- what happens to one entry

  /** Where an entry after a step comes from: a former entry with the same key, or a new one. */
  ghost predicate Descends(l: Log, e': Entry) {
    (e'.key >= l.next && !e'.dead) || exists e :: e in l.entries && Inherits(e, e')
  }

  /** What one critical section can do to an entry that survives it. */
  predicate Inherits(e: Entry, e': Entry) {
    && e'.key == e.key && e'.host == e.host && e'.since == e.since
    && (e'.pid == e.pid || e'.pid == DeadProcess)
    && (e.dead ==> e'.dead)
  }

  lemma {:induction false} SweepInherits(l: seq<Entry>, hosts: seq<Host>, track: bool, e': Entry)
    requires e' in SweepHosts(l, hosts, track)
    ensures exists e :: e in l && Inherits(e, e')
  {
    if hosts == [] {
      assert Inherits(e', e');
    } else {
      var h := hosts[|hosts| - 1];
      var before := SweepHosts(l, hosts[..|hosts| - 1], track);
      SweepMembers(before, h, track, e');
      var i :| 0 <= i < |before| && !Discarded(before[i], h, track) && e' == Swept(before[i], h);
      SweepInherits(l, hosts[..|hosts| - 1], track, before[i]);
      var e :| e in l && Inherits(e, before[i]);
      assert Inherits(e, e');
    }
  }

  lemma RefreshInherits(l: seq<Entry>, active: set<Host>, slider: int, clock: seq<real>, track: bool, e': Entry)
    requires |clock| == |l| && e' in RefreshList(l, active, slider, clock, track)
    ensures exists e :: e in l && Inherits(e, e')
  {
    var refreshed := RefreshEach(l, active, slider, clock);
    SweepInherits(refreshed, DeadHosts(l, active), track, e');
    var e :| e in refreshed && Inherits(e, e');
    var j :| 0 <= j < |refreshed| && refreshed[j] == e;
    assert Inherits(l[j], e');
  }

  lemma DoDescends(l: Log, s: Step, e': Entry)
    requires Possible(l, s) && e' in Do(l, s).entries
    ensures Descends(l, e')
  {
    var i :| 0 <= i < |Do(l, s).entries| && Do(l, s).entries[i] == e';
    match s
    case Clear(h) => assert Inherits(l.entries[i], e');
    case Put(h, u, born) =>
      if i < |l.entries| {
        assert Inherits(l.entries[i], e');
      }
    case Sweep(h, track) =>
      assert SweepHosts(l.entries, [h], track) == SweepList(l.entries, h, track) by {
        assert SweepHosts(l.entries, [h][..0], track) == l.entries;
      }
      SweepInherits(l.entries, [h], track, e');
    case Refresh(active, slider, clock, track) =>
      RefreshInherits(l.entries, active, slider, clock, track, e');
    case Remove(_) =>
      assert e' in l.entries;
      assert Inherits(e', e');
    case Sort(p) => assert Inherits(l.entries[p[i]], e');
  }

  lemma NextGrows(l: Log, steps: seq<Step>)
    ensures l.next <= Run(l, steps).next
  {
    if steps != [] {
      NextGrows(l, steps[..|steps| - 1]);
    }
  }

  /** Over any run an entry keeps its host and creation time, and once dead it stays dead. */
  lemma {:induction false} DeadStaysDead(l: Log, steps: seq<Step>, e: Entry, e': Entry)
    requires Ok(l) && e in l.entries && e' in Run(l, steps).entries && e'.key == e.key
    ensures Inherits(e, e')
  {
    if steps == [] {
      var i :| 0 <= i < |l.entries| && l.entries[i] == e;
      var j :| 0 <= j < |l.entries| && l.entries[j] == e';
      ApartAt(l.entries, l.next, i, j);
    } else {
      var front, s := steps[..|steps| - 1], steps[|steps| - 1];
      var before := Run(l, front);
      if Possible(before, s) {
        DoDescends(before, s, e');
        NextGrows(l, front);
        var mid :| mid in before.entries && Inherits(mid, e');
        DeadStaysDead(l, front, e, mid);
      } else {
        DeadStaysDead(l, front, e, e');
      }
    }
  }
}
