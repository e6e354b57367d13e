/**
 What the critical sections do to an entry, field by field: updates, sweeps, refreshes and
 removals, in terms of the fields alone.
 */
module LogFacts {
  import opened Common
  import opened EventLog
  import opened LogInvariant
  import opened PollCycle
  import opened LogHistory

  // ---------------------------------------------------------------- texts and numbers

  predicate BreaksAt(s: string, i: nat) {
    i + 1 < |s| && s[i] == '\r' && s[i + 1] == '\n'
  }

  /** A text without "\r\n" stays as it is, ... */
  lemma {:induction false} JoinLinesKeeps(s: string)
    requires forall i: nat :: !BreaksAt(s, i)
    ensures JoinLines(s) == s
  {
    if s != "" {
      assert !BreaksAt(s, 0);
      forall i: nat ensures !BreaksAt(s[1..], i) {
        assert !BreaksAt(s, i + 1);
      }
      JoinLinesKeeps(s[1..]);
    }
  }

  lemma TailOf(a: string, b: string, n: nat)
    requires n <= |a|
    ensures (a + "\r\n" + b)[n..] == a[n..] + "\r\n" + b
  {
  }

  // Of a text that starts with neither half of the pair, the first character is kept.
  lemma JoinFirst(s: string)
    requires s != "" && !BreaksAt(s, 0)
    ensures JoinLines(s) == [s[0]] + JoinLines(s[1..])
  {
  }

  /** ... and every "\r\n" becomes a space. */
  lemma {:induction false} JoinLinesReplaces(a: string, b: string)
    ensures JoinLines(a + "\r\n" + b) == JoinLines(a) + " " + JoinLines(b)
  {
    var s := a + "\r\n" + b;
    if a == "" {
      assert s[2..] == b;
    } else if BreaksAt(a, 0) {
      TailOf(a, b, 2);
      JoinLinesReplaces(a[2..], b);
    } else {
      TailOf(a, b, 1);
      JoinFirst(s);
      JoinFirst(a);
      JoinLinesReplaces(a[1..], b);
    }
  }

  /** Rounding towards zero. */
  lemma TruncatedTowardsZero(x: real)
    ensures x >= 0.0 ==> 0.0 <= Truncated(x) as real <= x < Truncated(x) as real + 1.0
    ensures x <= 0.0 ==> Truncated(x) as real - 1.0 < x <= Truncated(x) as real <= 0.0
  {
  }

  /** The int of the same low 32 bits. */
  lemma ToInt32Wraps(x: int)
    ensures -0x8000_0000 <= ToInt32(x) < 0x8000_0000 && (x - ToInt32(x)) % 0x1_0000_0000 == 0
  {
  }

  // ---------------------------------------------------------------- updates

  /** What an entry shows after a row was written to it. */
  predicate RowShown(e: Entry, row: Row, m: Moment) {
    && row.info.Some?
    && e.updated && e.query == Some(row) && e.text == Some(row.host + " - " + JoinLines(row.info.value))
    && e.duration == (if row.time == 2147483647 then 1 else row.time)
    && (e.timeout.Some? <==> e.duration >= m.triggerTimer)
    && (e.timeout.Some? ==> e.timeout.value == m.now + m.slider as real)
  }

  /** After a slave status, if its timeout was `before`. */
  predicate StatusShown(e: Entry, status: SlaveStatus, m: Moment, before: Option<real>) {
    && e.updated && e.slave == Some(status)
    && (status.behind > 1 ==>
          e.text == Some("Replication has fallen behind") && e.duration == ToInt32(status.behind))
    && (status.behind <= 1 ==>
          e.text == Some("Replication is Broken!") && e.duration == Truncated(m.now - e.since))
    && (e.duration >= m.triggerTimer ==> e.timeout == Some(m.now + m.slider as real))
    && (e.duration < m.triggerTimer ==> e.timeout == before)
  }

  /** After a failed connection. */
  predicate FailureShown(e: Entry, now: real, text: Option<string>, timeout: Option<real>) {
    e.updated && e.duration == Truncated(now - e.since) && e.text == text && e.timeout == timeout
  }

  /** `e` is the entry of a process, if it has one. */
  ghost predicate IsEntryOf(e: Option<Entry>, l: Log, h: Host, pid: Pid) {
    match e
    case Some(x) => x in l.entries && Matches(x, h, pid)
    case None => forall x :: x in l.entries ==> !Matches(x, h, pid)
  }

  /** The entry of a process after an update: the one it had, written to, or a new one. */
  predicate Grown(e: Option<Entry>, e': Entry, l: Log, born: real) {
    match e
    case Some(x) => e'.key == x.key && e'.since == x.since && e'.dead == x.dead
    case None => e'.key == l.next && e'.since == born && !e'.dead
  }

  // The one place an update changes.
  lemma UpdatePlace(l: Log, h: Host, u: Update, born: real, e: Option<Entry>, e': Entry)
    requires Ok(l) && Applicable(u) && IsEntryOf(e, l, h, PidOf(u))
    requires e' in Upsert(l, h, u, born).entries && Matches(e', h, PidOf(u))
    ensures e' == Written(if e.Some? then e.value else Created(l.next, h, u, born), u)
  {
    var i, l' := Find(l.entries, h, PidOf(u)), Upsert(l, h, u, born).entries;
    forall k | 0 <= k < |l.entries| && Matches(l.entries[k], h, PidOf(u)) ensures k == i {
      OnlyOneMatches(l.entries, l.next, h, PidOf(u), k);
    }
    var j :| 0 <= j < |l'| && l'[j] == e';
    if e.Some? {
      var k :| 0 <= k < |l.entries| && l.entries[k] == e.value;
    }
  }

  /** A process that was updated has an entry; all other entries are what they were, and no others come up. */
  lemma UpdateTouchesOne(l: Log, h: Host, u: Update, born: real)
    requires Applicable(u)
    ensures var l' := Upsert(l, h, u, born);
      && (exists e' :: e' in l'.entries && Matches(e', h, PidOf(u)))
      && (forall x :: !Matches(x, h, PidOf(u)) ==> (x in l'.entries <==> x in l.entries))
  {
    var i, l' := Find(l.entries, h, PidOf(u)), Upsert(l, h, u, born);
    assert Matches(l'.entries[i], h, PidOf(u));
    forall x | !Matches(x, h, PidOf(u)) ensures x in l'.entries <==> x in l.entries {
      if x in l.entries {
        var j :| 0 <= j < |l.entries| && l.entries[j] == x;
        assert l'.entries[j] == x;
      }
      if x in l'.entries {
        var j :| 0 <= j < |l'.entries| && l'.entries[j] == x;
        assert l.entries[j] == x;
      }
    }
  }

  /** The entry of a process after one of its rows. */
  lemma RowUpdate(l: Log, h: Host, row: Row, m: Moment, born: real, e: Option<Entry>, e': Entry)
    requires Ok(l) && row.info.Some? && IsEntryOf(e, l, h, Number(row.id))
    requires e' in Upsert(l, h, FromRow(row, m), born).entries && Matches(e', h, Number(row.id))
    ensures RowShown(e', row, m) && Grown(e, e', l, born)
  {
    UpdatePlace(l, h, FromRow(row, m), born, e, e');
  }

  /** The entry of replication after a lagging slave status. */
  lemma StatusUpdate(l: Log, h: Host, status: SlaveStatus, m: Moment, born: real, e: Option<Entry>, e': Entry)
    requires Ok(l) && Lagging(status) && IsEntryOf(e, l, h, Number(-1))
    requires e' in Upsert(l, h, FromSlave(status, m), born).entries && Matches(e', h, Number(-1))
    ensures StatusShown(e', status, m, if e.Some? then e.value.timeout else None) && Grown(e, e', l, born)
  {
    UpdatePlace(l, h, FromSlave(status, m), born, e, e');
  }

  /** The entry of a failed connection: its text is written when it is new. */
  lemma FailureUpdate(l: Log, h: Host, now: real, born: real, e: Option<Entry>, e': Entry)
    requires Ok(l) && IsEntryOf(e, l, h, Number(-2))
    requires e' in Upsert(l, h, FromFail(now), born).entries && Matches(e', h, Number(-2))
    ensures match e
            case Some(x) => FailureShown(e', now, x.text, x.timeout)
            case None => FailureShown(e', now, Some("Could not connect to host!"), None)
    ensures Grown(e, e', l, born)
  {
    UpdatePlace(l, h, FromFail(now), born, e, e');
  }

  // ---------------------------------------------------------------- sweeps and refreshes

  /** `e` is what the list holds under its key. */
  ghost predicate Holds(l: seq<Entry>, e: Entry) {
    e in l && forall x :: x in l && x.key == e.key ==> x == e
  }

  ghost predicate Gone(l: seq<Entry>, key: nat) {
    forall x :: x in l ==> x.key != key
  }

  lemma HoldsIt(l: seq<Entry>, next: nat, e: Entry)
    requires ListOk(l, next) && e in l
    ensures Holds(l, e)
  {
    var i :| 0 <= i < |l| && l[i] == e;
    forall x | x in l && x.key == e.key ensures x == e {
      var j :| 0 <= j < |l| && l[j] == x;
      ApartAt(l, next, i, j);
    }
  }

  /**
   A sweep of a host, entry by entry: what was updated stays as it is; of the rest, what has a
   timeout becomes a dead process while tracking is on, and everything else is removed.
   */
  lemma SweepIs(l: seq<Entry>, next: nat, h: Host, track: bool, e: Entry)
    requires ListOk(l, next) && e in l
    ensures var l' := SweepList(l, h, track);
      && (e.host != h || e.updated ==> Holds(l', e))
      && (e.host == h && !e.updated && e.timeout.Some? && track ==> Holds(l', e.(pid := DeadProcess, dead := true)))
      && (e.host == h && !e.updated && !(e.timeout.Some? && track) ==> Gone(l', e.key))
  {
    var l' := SweepList(l, h, track);
    SweepOk(l, h, track, next);
    HoldsIt(l, next, e);
    if e.host != h || e.updated {
      SweepMembers(l, h, track, e);
      SweepKeeps(l, h, track, e, e);
      HoldsIt(l', next, e);
    } else if e.timeout.Some? && track {
      SweepKeeps(l, h, track, e, e.(pid := DeadProcess, dead := true));
      HoldsIt(l', next, e.(pid := DeadProcess, dead := true));
    } else {
      forall x | x in l' ensures x.key != e.key {
        SweepMembers(l, h, track, x);
        var i :| 0 <= i < |l| && !Discarded(l[i], h, track) && x == Swept(l[i], h);
        assert l[i] in l;
      }
    }
  }

  lemma SweepKeeps(l: seq<Entry>, h: Host, track: bool, e: Entry, e': Entry)
    requires e in l && !Discarded(e, h, track) && e' == Swept(e, h)
    ensures e' in SweepList(l, h, track)
  {
    SweepMembers(l, h, track, e');
    var i :| 0 <= i < |l| && l[i] == e;
    assert !Discarded(l[i], h, track) && e' == Swept(l[i], h);
  }

  /** Nothing unmarked of the host survives while tracking is off. */
  lemma SweepWithoutTracking(l: seq<Entry>, h: Host)
    ensures forall e :: e in SweepList(l, h, false) && e.host == h ==> e.updated
  {
    forall e | e in SweepList(l, h, false) && e.host == h ensures e.updated {
      SweepMembers(l, h, false, e);
    }
  }

  /**
   A refresh, entry by entry: on an active host the timeout goes if the slider is finite and the
   clock is past it, and nothing else changes; on a host that is not active, what is marked loses
   its timeout and is dead, and the rest is removed.
   */
  lemma RefreshIs(l: seq<Entry>, next: nat, active: set<Host>, slider: int, clock: seq<real>, track: bool, i: nat)
    requires ListOk(l, next) && i < |l| == |clock|
    ensures var e, l' := l[i], RefreshList(l, active, slider, clock, track);
      && (e.host in active && slider >= 0 && e.timeout.Some? && e.timeout.value < clock[i] ==>
            Holds(l', e.(timeout := None)))
      && (e.host in active && (slider < 0 || e.timeout.None? || clock[i] <= e.timeout.value) ==> Holds(l', e))
      && (e.host !in active && e.updated ==> Holds(l', e.(dead := true, timeout := None)))
      && (e.host !in active && !e.updated ==> Gone(l', e.key))
  {
    var e, e' := l[i], Refreshed(l[i], active, slider, clock[i]);
    var refreshed, l' := RefreshEach(l, active, slider, clock), RefreshList(l, active, slider, clock, track);
    RefreshOk(l, active, slider, clock, track, next);
    assert refreshed[i] == e' && e' in refreshed;
    if e.host in active {
      DeadHostsAreInactive(l, active, e.host);
      SweepOtherHosts(refreshed, DeadHosts(l, active), track, e');
      HoldsIt(l', next, e');
    } else if e.updated {
      RefreshOfInactiveHost(l, active, slider, clock, track, e.host, e');
      HoldsIt(l', next, e');
    } else {
      HoldsIt(l, next, e);
      forall x | x in refreshed && x.key == e.key ensures !x.updated {
        var j :| 0 <= j < |refreshed| && refreshed[j] == x;
        assert l[j] in l;
      }
      forall x | x in l' ensures x.key != e.key {
        RefreshInherits(l, active, slider, clock, track, x);
        var y :| y in l && Inherits(y, x);
        if x.host == e.host {
          RefreshOfInactiveHost(l, active, slider, clock, track, e.host, x);
        }
      }
    }
  }

  /** The user can remove the entry of a failed connection or of a dead process, and no other. */
  lemma RemovalIs(l: seq<Entry>, next: nat, i: nat, e: Entry)
    requires ListOk(l, next) && e in l
    ensures var l' := RemoveSelected(l, i);
      if i < |l| && l[i] == e && (e.pid == Number(-2) || e.pid == DeadProcess) then Gone(l', e.key) else Holds(l', e)
  {
    var l' := RemoveSelected(l, i);
    HoldsIt(l, next, e);
    assert forall x :: x in l' ==> x in l;
    if i < |l| && l[i] == e && (e.pid == Number(-2) || e.pid == DeadProcess) {
      forall x | x in l' ensures x.key != e.key {
        var j :| 0 <= j < |l| && j != i && l[j] == x;
        ApartAt(l, next, i, j);
      }
    } else {
      var j :| 0 <= j < |l| && l[j] == e;
      if l' != l {
        assert l'[if j < i then j else j - 1] == e;
      }
    }
  }
}
