/**
 The event log of DBMDocument.m as a value, and the critical sections that change it.
 Each `@synchronized(dataList)` block is one step; what a block reads from the servers, the
 clock, the configuration and the controls is part of the step.
 */
module EventLog {
  import opened Common

  /** A host name; names are compared by identity and are distinct from host to host. */
  type Host = nat

  /**
   The process ID of an entry.  `Number(n)` is the string of the decimal numeral of n, so
   "-1" is Number(-1); `DeadProcess` is the string "Dead Process".
   */
  datatype Pid = Number(n: int) | DeadProcess

  const REPLICATION := Number(-1)
  const NO_CONNECTION := Number(-2)

  /** A row of INFORMATION_SCHEMA.PROCESSLIST; `info` is None when INFO is NULL. */
  datatype Row = Row(id: int, host: string, info: Option<string>, time: int)

  datatype SlaveStatus = SlaveStatus(behind: int, sqlRunning: bool, ioRunning: bool)

  datatype Entry = Entry(
    key: nat,                 // object identity: the number of entries created before
    host: Host,
    pid: Pid,
    text: Option<string>,     // eventString
    since: real,              // eventTime
    updated: bool,
    dead: bool,
    duration: int,
    timeout: Option<real>,    // displayTimeout
    query: Option<Row>,
    slave: Option<SlaveStatus>)

  datatype Log = Log(entries: seq<Entry>, next: nat)

  const EMPTY := Log([], 0)

  /** `initWithHost:processID:` */
  function NewEntry(key: nat, h: Host, pid: Pid, now: real): Entry {
    Entry(key, h, pid, None, now, false, false, 0, None, None, None)
  }

  // ---------------------------------------------------------------- what an update writes

  /** `stringByReplacingOccurrencesOfString:@"\r\n" withString:@" "` */
  function JoinLines(s: string): string {
    if |s| >= 2 && s[0] == '\r' && s[1] == '\n' then " " + JoinLines(s[2..])
    else if s == "" then ""
    else [s[0]] + JoinLines(s[1..])
  }

  function RowText(row: Row): string
    requires row.info.Some?
  {
    row.host + " - " + JoinLines(row.info.value)
  }

  /** 2147483647 is what MariaDB reports for 1. */
  function RowDuration(row: Row): int {
    if row.time == 2147483647 then 1 else row.time
  }

  /** Conversion of a clock difference to int: towards zero. */
  function Truncated(x: real): int {
    if x >= 0.0 then x.Floor else -((-x).Floor)
  }

  /** Conversion of a 64-bit integer to a 32-bit int. */
  function ToInt32(x: int): int {
    var low := x % 0x1_0000_0000;
    if low < 0x8000_0000 then low else low - 0x1_0000_0000
  }

  /** Rows that reach the log. */
  predicate Passes(row: Row, monitorTimer: int) {
    row.info.Some? && row.time > monitorTimer
  }

  predicate Lagging(s: SlaveStatus) {
    s.behind > 1 || !s.sqlRunning || !s.ioRunning
  }

  /** The values of the controls and the clock when a critical section runs. */
  datatype Moment = Moment(now: real, slider: int, triggerTimer: int)

  function Deadline(m: Moment): real {
    m.now + m.slider as real
  }

  function WithRow(e: Entry, row: Row, m: Moment): Entry
    requires row.info.Some?
  {
    e.(updated := true,
       text := Some(RowText(row)),
       duration := RowDuration(row),
       timeout := if RowDuration(row) >= m.triggerTimer then Some(Deadline(m)) else None,
       query := Some(row))
  }

  function SlaveDuration(e: Entry, s: SlaveStatus, m: Moment): int {
    if s.behind > 1 then ToInt32(s.behind) else Truncated(m.now - e.since)
  }

  function SlaveText(s: SlaveStatus): string {
    if s.behind > 1 then "Replication has fallen behind" else "Replication is Broken!"
  }

  function WithSlave(e: Entry, s: SlaveStatus, m: Moment): Entry {
    e.(updated := true,
       slave := Some(s),
       text := Some(SlaveText(s)),
       duration := SlaveDuration(e, s, m),
       timeout := if SlaveDuration(e, s, m) >= m.triggerTimer then Some(Deadline(m)) else e.timeout)
  }

  function WithFail(e: Entry, now: real): Entry {
    e.(updated := true, duration := Truncated(now - e.since))
  }

  // ---------------------------------------------------------------- the critical sections

  predicate Matches(e: Entry, h: Host, pid: Pid) {
    e.host == h && e.pid == pid
  }

  /** The last entry that matches, |l| if there is none. */
  function Find(l: seq<Entry>, h: Host, pid: Pid): (i: nat)
    ensures i <= |l|
    ensures i < |l| ==> Matches(l[i], h, pid) && forall j :: i < j < |l| ==> !Matches(l[j], h, pid)
    ensures i == |l| ==> forall j :: 0 <= j < |l| ==> !Matches(l[j], h, pid)
  {
    if l == [] then 0
    else if Matches(l[|l| - 1], h, pid) then |l| - 1
    else
      var i := Find(l[..|l| - 1], h, pid);
      if i < |l| - 1 then i else |l|
  }

  /** What an update does to the entry it finds or creates. */
  datatype Update =
    | FromRow(row: Row, m: Moment)
    | FromSlave(status: SlaveStatus, m: Moment)
    | FromFail(now: real)

  function PidOf(u: Update): Pid {
    match u
    case FromRow(row, _) => Number(row.id)
    case FromSlave(_, _) => REPLICATION
    case FromFail(_) => NO_CONNECTION
  }

  predicate Applicable(u: Update) {
    match u
    case FromRow(row, _) => row.info.Some?
    case FromSlave(status, _) => Lagging(status)
    case FromFail(_) => true
  }

  function Written(e: Entry, u: Update): Entry
    requires Applicable(u)
  {
    match u
    case FromRow(row, m) => WithRow(e, row, m)
    case FromSlave(status, m) => WithSlave(e, status, m)
    case FromFail(now) => WithFail(e, now)
  }

  function Created(key: nat, h: Host, u: Update, now: real): Entry {
    var e := NewEntry(key, h, PidOf(u), now);
    if u.FromFail? then e.(text := Some("Could not connect to host!")) else e
  }

  /** One update block; `born` is the creation time of the entry, if one is created. */
  function Upsert(l: Log, h: Host, u: Update, born: real): Log
    requires Applicable(u)
  {
    var i := Find(l.entries, h, PidOf(u));
    if i < |l.entries| then
      l.(entries := l.entries[i := Written(l.entries[i], u)])
    else
      Log(l.entries + [Written(Created(l.next, h, u, born), u)], l.next + 1)
  }

  function Unmarked(e: Entry, h: Host): Entry {
    if e.host == h then e.(updated := false) else e
  }

  /** `clearUpdates:` on the list. */
  function ClearList(l: seq<Entry>, h: Host): seq<Entry> {
    seq(|l|, i requires 0 <= i < |l| => Unmarked(l[i], h))
  }

  predicate Discarded(e: Entry, h: Host, track: bool) {
    e.host == h && !e.updated && (e.timeout.None? || !track)
  }

  function Swept(e: Entry, h: Host): Entry {
    if e.host == h && !e.updated then e.(dead := true, pid := DeadProcess) else e
  }

  /** `discardMySQLDead:` on the list. */
  function SweepList(l: seq<Entry>, h: Host, track: bool): seq<Entry> {
    if l == [] then []
    else
      var rest, e := SweepList(l[..|l| - 1], h, track), l[|l| - 1];
      if Discarded(e, h, track) then rest else rest + [Swept(e, h)]
  }

  /** What the refresh loop does to one entry. */
  function Refreshed(e: Entry, active: set<Host>, slider: int, now: real): Entry {
    var e := if e.host !in active then e.(dead := true, timeout := None) else e;
    if e.timeout.Some? && slider >= 0 && e.timeout.value < now then e.(timeout := None) else e
  }

  /** The hosts of the entries whose host is not active, in list order. */
  function DeadHosts(l: seq<Entry>, active: set<Host>): seq<Host> {
    if l == [] then []
    else
      var rest, e := DeadHosts(l[..|l| - 1], active), l[|l| - 1];
      if e.host in active then rest else rest + [e.host]
  }

  function SweepHosts(l: seq<Entry>, hosts: seq<Host>, track: bool): seq<Entry> {
    if hosts == [] then l
    else SweepList(SweepHosts(l, hosts[..|hosts| - 1], track), hosts[|hosts| - 1], track)
  }

  /** `clock` is the clock as it is read at each entry. */
  function RefreshEach(l: seq<Entry>, active: set<Host>, slider: int, clock: seq<real>): seq<Entry>
    requires |clock| == |l|
  {
    seq(|l|, i requires 0 <= i < |l| => Refreshed(l[i], active, slider, clock[i]))
  }

  /** The list part of the refresh operation, without the sorting. */
  function RefreshList(l: seq<Entry>, active: set<Host>, slider: int, clock: seq<real>, track: bool): seq<Entry>
    requires |clock| == |l|
  {
    SweepHosts(RefreshEach(l, active, slider, clock), DeadHosts(l, active), track)
  }

  /** The user removes the entry of a failed connection or of a dead process. */
  function RemoveSelected(l: seq<Entry>, i: nat): seq<Entry> {
    if i < |l| && (l[i].pid == NO_CONNECTION || l[i].pid == DeadProcess) then l[..i] + l[i + 1..] else l
  }

  predicate IsPermutation(p: seq<nat>, n: nat) {
    && |p| == n
    && (forall i :: 0 <= i < n ==> p[i] < n)
    && (forall i, j :: 0 <= i < j < n ==> p[i] != p[j])
    && (forall k :: 0 <= k < n ==> k in p)
  }

  function Sorted(l: seq<Entry>, p: seq<nat>): seq<Entry>
    requires IsPermutation(p, |l|)
  {
    seq(|p|, i requires 0 <= i < |p| => l[p[i]])
  }

  datatype Step =
    | Clear(h: Host)
    | Put(h: Host, u: Update, born: real)
    | Sweep(h: Host, track: bool)
    | Refresh(active: set<Host>, slider: int, clock: seq<real>, track: bool)
    | Remove(i: nat)
    | Sort(p: seq<nat>)

  predicate Possible(l: Log, s: Step) {
    match s
    case Put(_, u, _) => Applicable(u)
    case Refresh(_, _, clock, _) => |clock| == |l.entries|
    case Sort(p) => IsPermutation(p, |l.entries|)
    case _ => true
  }

  function Do(l: Log, s: Step): Log
    requires Possible(l, s)
  {
    match s
    case Clear(h) => l.(entries := ClearList(l.entries, h))
    case Put(h, u, born) => Upsert(l, h, u, born)
    case Sweep(h, track) => l.(entries := SweepList(l.entries, h, track))
    case Refresh(active, slider, clock, track) => l.(entries := RefreshList(l.entries, active, slider, clock, track))
    case Remove(i) => l.(entries := RemoveSelected(l.entries, i))
    case Sort(p) => l.(entries := Sorted(l.entries, p))
  }

  /** A run: any number of critical sections of any threads, in the order in which they ran. */
  function Run(l: Log, steps: seq<Step>): Log {
    if steps == [] then l
    else
      var before, s := Run(l, steps[..|steps| - 1]), steps[|steps| - 1];
      if Possible(before, s) then Do(before, s) else before
  }

  // ---------------------------------------------------------------- sweeping, entry by entry

  /** Membership after a sweep, both ways. */
  lemma {:induction false} SweepMembers(l: seq<Entry>, h: Host, track: bool, e: Entry)
    ensures e in SweepList(l, h, track) <==>
            exists i :: 0 <= i < |l| && !Discarded(l[i], h, track) && e == Swept(l[i], h)
  {
    if l != [] {
      var rest := l[..|l| - 1];
      SweepMembers(rest, h, track, e);
      if e in SweepList(rest, h, track) {
        var i :| 0 <= i < |rest| && !Discarded(rest[i], h, track) && e == Swept(rest[i], h);
        assert l[i] == rest[i];
      }
      if i :| 0 <= i < |l| && !Discarded(l[i], h, track) && e == Swept(l[i], h) {
        assert i < |rest| ==> l[i] == rest[i];
      }
    }
  }
}
