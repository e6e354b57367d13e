/**
 Properties of whole runs of the event log: what is remembered while tracking is on, what a
 reload purges, and what the steps of one host leave alone.
 */
module LogHistory {
  import opened Common
  import opened EventLog
  import opened LogInvariant
  import opened PollCycle

  // ---------------------------------------------------------------- retained history

  /** A step taken while tracking is on, the slider is at infinity and `h` is active. */
  predicate Tracking(s: Step, h: Host) {
    && (s.Sweep? && s.h == h ==> s.track)
    && (s.Refresh? ==> s.slider < 0 && h in s.active)
    && !s.Remove?
  }

  predicate Remembered(e: Entry) {
    e.pid == DeadProcess && e.timeout.Some?
  }

  /** The entry is still there; nothing of it has changed but perhaps the mark of a cycle. */
  predicate Retains(l: seq<Entry>, e: Entry) {
    e in l || e.(updated := false) in l
  }

  lemma SweepRetains(l: seq<Entry>, g: Host, track: bool, e: Entry)
    requires e in l && e.dead && Remembered(e) && (g == e.host ==> track)
    ensures e in SweepList(l, g, track)
  {
    var i :| 0 <= i < |l| && l[i] == e;
    SweepMembers(l, g, track, e);
    assert !Discarded(l[i], g, track) && e == Swept(l[i], g);
  }

  lemma RefreshRetains(l: seq<Entry>, active: set<Host>, slider: int, clock: seq<real>, track: bool, e: Entry)
    requires e in l && slider < 0 && e.host in active && |clock| == |l|
    ensures e in RefreshList(l, active, slider, clock, track)
  {
    var i :| 0 <= i < |l| && l[i] == e;
    assert RefreshEach(l, active, slider, clock)[i] == e;
    DeadHostsAreInactive(l, active, e.host);
    SweepOtherHosts(RefreshEach(l, active, slider, clock), DeadHosts(l, active), track, e);
  }

  lemma StepRetains(l: Log, s: Step, e: Entry)
    requires Possible(l, s) && Tracking(s, e.host)
    requires e in l.entries && e.dead && Remembered(e)
    ensures Retains(Do(l, s).entries, e)
  {
    var i :| 0 <= i < |l.entries| && l.entries[i] == e;
    match s
    case Clear(g) =>
      assert Do(l, s).entries[i] == Unmarked(e, g);
    case Put(_, _, _) =>
      assert Do(l, s).entries[i] == e;
    case Sweep(g, track) => SweepRetains(l.entries, g, track, e);
    case Refresh(active, slider, clock, track) => RefreshRetains(l.entries, active, slider, clock, track, e);
    case Sort(p) => SortedMembers(l.entries, p);
  }

  /** Over any run under tracking, a remembered dead process keeps text, query, duration and timeout. */
  lemma {:induction false} HistoryIsRetained(l: Log, steps: seq<Step>, e: Entry)
    requires e in l.entries && e.dead && Remembered(e)
    requires forall s :: s in steps ==> Tracking(s, e.host)
    ensures Retains(Run(l, steps).entries, e)
  {
    if steps != [] {
      var front, s := steps[..|steps| - 1], steps[|steps| - 1];
      HistoryIsRetained(l, front, e);
      var before := Run(l, front);
      assert s in steps;
      if Possible(before, s) {
        var now := if e in before.entries then e else e.(updated := false);
        StepRetains(before, s, now);
      }
    }
  }

  // ---------------------------------------------------------------- purge of inactive hosts

  ghost predicate NoneOf(l: seq<Entry>, h: Host) {
    forall e :: e in l ==> e.host != h
  }

  ghost predicate NoneMarked(l: seq<Entry>, h: Host) {
    forall e :: e in l && e.host == h ==> !e.updated
  }

  // Sweeping a list in which the unmarked entries of `h` have no timeout.
  lemma {:induction false} SweepHostsOf(l: seq<Entry>, hosts: seq<Host>, track: bool, h: Host, e: Entry)
    requires forall x :: x in l && x.host == h ==> x.timeout.None?
    requires e.host == h
    ensures e in SweepHosts(l, hosts, track) <==> e in l && (e.updated || h !in hosts)
  {
    if hosts != [] {
      var front, g := hosts[..|hosts| - 1], hosts[|hosts| - 1];
      var before := SweepHosts(l, front, track);
      assert hosts == front + [g];
      SweepHostsOf(l, front, track, h, e);
      if g != h {
        SweepOtherHost(before, g, track, e);
      } else {
        SweepMembers(before, h, track, e);
        if e in before && e.updated {
          var i :| 0 <= i < |before| && before[i] == e;
          assert !Discarded(before[i], h, track) && e == Swept(before[i], h);
        }
        if e in SweepList(before, h, track) {
          var i :| 0 <= i < |before| && !Discarded(before[i], h, track) && e == Swept(before[i], h);
          SweepHostsOf(l, front, track, h, before[i]);
        }
      }
    }
  }

  /** A refresh while `h` is inactive keeps of `h` exactly the entries a cycle in flight has marked. */
  lemma RefreshOfInactiveHost(
      l: seq<Entry>, active: set<Host>, slider: int, clock: seq<real>, track: bool, h: Host, e: Entry)
    requires h !in active && e.host == h && |clock| == |l|
    ensures e in RefreshList(l, active, slider, clock, track) <==>
            e.updated && e in RefreshEach(l, active, slider, clock)
  {
    var refreshed := RefreshEach(l, active, slider, clock);
    SweepHostsOf(refreshed, DeadHosts(l, active), track, h, e);
    DeadHostsAreInactive(l, active, h);
    if e in refreshed {
      var i :| 0 <= i < |refreshed| && refreshed[i] == e;
      assert l[i] in l && l[i].host == h;
    }
  }

  lemma SweepMarksNothing(l: seq<Entry>, g: Host, track: bool, h: Host)
    requires NoneMarked(l, h)
    ensures NoneMarked(SweepList(l, g, track), h)
  {
    forall e | e in SweepList(l, g, track) && e.host == h ensures !e.updated {
      SweepMembers(l, g, track, e);
    }
  }

  lemma {:induction false} SweepsMarkNothing(l: seq<Entry>, hosts: seq<Host>, track: bool, h: Host)
    requires NoneMarked(l, h)
    ensures NoneMarked(SweepHosts(l, hosts, track), h)
  {
    if hosts != [] {
      SweepsMarkNothing(l, hosts[..|hosts| - 1], track, h);
      SweepMarksNothing(SweepHosts(l, hosts[..|hosts| - 1], track), hosts[|hosts| - 1], track, h);
    }
  }

  lemma RefreshEachMarksNothing(l: seq<Entry>, active: set<Host>, slider: int, clock: seq<real>, h: Host)
    requires NoneMarked(l, h) && |clock| == |l|
    ensures NoneMarked(RefreshEach(l, active, slider, clock), h)
  {
    var refreshed := RefreshEach(l, active, slider, clock);
    forall e | e in refreshed && e.host == h ensures !e.updated {
      var i :| 0 <= i < |refreshed| && refreshed[i] == e;
      assert l[i] in l;
    }
  }

  lemma StepMarksNothing(l: Log, s: Step, h: Host)
    requires Possible(l, s) && NoneMarked(l.entries, h) && !(s.Put? && s.h == h)
    ensures NoneMarked(Do(l, s).entries, h)
  {
    match s
    case Sweep(g, track) => SweepMarksNothing(l.entries, g, track, h);
    case Refresh(active, slider, clock, track) =>
      RefreshEachMarksNothing(l.entries, active, slider, clock, h);
      SweepsMarkNothing(RefreshEach(l.entries, active, slider, clock), DeadHosts(l.entries, active), track, h);
    case Sort(p) => SortedMembers(l.entries, p);
    case Clear(g) =>
      forall e | e in ClearList(l.entries, g) && e.host == h ensures !e.updated {
        var i :| 0 <= i < |l.entries| && ClearList(l.entries, g)[i] == e;
        assert l.entries[i] in l.entries;
      }
    case Put(g, u, born) => PutMarksOther(l, g, u, born, h);
    case Remove(_) =>
  }

  lemma PutMarksOther(l: Log, g: Host, u: Update, born: real, h: Host)
    requires Applicable(u) && g != h && NoneMarked(l.entries, h)
    ensures NoneMarked(Upsert(l, g, u, born).entries, h)
  {
    var l' := Upsert(l, g, u, born).entries;
    forall e | e in l' && e.host == h ensures !e.updated {
      var i :| 0 <= i < |l'| && l'[i] == e;
      assert e in l.entries;
    }
  }

  lemma {:induction false} RunMarksNothing(l: Log, steps: seq<Step>, h: Host)
    requires NoneMarked(l.entries, h)
    requires forall s :: s in steps ==> !(s.Put? && s.h == h)
    ensures NoneMarked(Run(l, steps).entries, h)
  {
    if steps != [] {
      var front, s := steps[..|steps| - 1], steps[|steps| - 1];
      RunMarksNothing(l, front, h);
      assert s in steps;
      if Possible(Run(l, front), s) {
        StepMarksNothing(Run(l, front), s, h);
      }
    }
  }

  lemma ClearMarksNothing(l: Log, h: Host)
    ensures NoneMarked(Do(l, Clear(h)).entries, h)
  {
  }

  /**
   Once the reload has unmarked the entries of a host that is not active, and no poll of it is
   in flight, the next refresh leaves nothing of it, whatever else runs in between.
   */
  lemma InactiveHostIsPurged(
      l: Log, between: seq<Step>, active: set<Host>, slider: int, clock: seq<real>, track: bool, h: Host)
    requires h !in active && |clock| == |Run(Do(l, Clear(h)), between).entries|
    requires forall s :: s in between ==> !(s.Put? && s.h == h)
    ensures NoneOf(Do(Run(Do(l, Clear(h)), between), Refresh(active, slider, clock, track)).entries, h)
  {
    ClearMarksNothing(l, h);
    RunMarksNothing(Do(l, Clear(h)), between, h);
    var before := Run(Do(l, Clear(h)), between).entries;
    RefreshEachMarksNothing(before, active, slider, clock, h);
    forall e | e in RefreshList(before, active, slider, clock, track) ensures e.host != h {
      if e.host == h {
        RefreshOfInactiveHost(before, active, slider, clock, track, h, e);
      }
    }
  }

  lemma SameIsTransitive(a: seq<Entry>, b: seq<Entry>, c: seq<Entry>, g: Host)
    requires SameForHost(a, b, g) && SameForHost(b, c, g)
    ensures SameForHost(a, c, g)
  {
    forall e | e in a && e.host == g ensures HasTwin(e, c) {
      assert HasTwin(e, b);
      var e' :| e' in b && Twins(e, e');
      assert HasTwin(e', c);
      var e'' :| e'' in c && Twins(e', e'');
      assert Twins(e, e'');
    }
    forall e | e in c && e.host == g ensures HasTwin(e, a) {
      assert HasTwin(e, b);
      var e' :| e' in b && Twins(e, e');
      assert HasTwin(e', a);
      var e'' :| e'' in a && Twins(e', e'');
      assert Twins(e, e'');
    }
  }

  /**
   Nothing that other hosts, reloads of other hosts, sorting or refreshing do ever adds, removes
   or alters an entry of an active host `g`, except that its timeout may run out.
   */
  lemma {:induction false} OthersSpareHost(l: Log, steps: seq<Step>, g: Host)
    requires forall s :: s in steps ==> Foreign(s, g)
    ensures SameForHost(l.entries, Run(l, steps).entries, g)
  {
    if steps == [] {
      SameMembers(l.entries, l.entries, g);
    } else {
      var front, s := steps[..|steps| - 1], steps[|steps| - 1];
      OthersSpareHost(l, front, g);
      assert s in steps;
      if Possible(Run(l, front), s) {
        ForeignStep(Run(l, front), s, g);
        SameIsTransitive(l.entries, Run(l, front).entries, Run(l, steps).entries, g);
      }
    }
  }
}
