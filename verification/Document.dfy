/**
 The methods of DBMDocument.m that change `dataList`, over mutable log entries.  Each is proved
 to do exactly its step of EventLog; the last one, a whole poll operation, is proved to be a
 cycle in the sense of PollCycle.
 */
module Document {
  import opened Common
  import opened EventLog
  import opened LogInvariant
  import opened PollCycle

  class DBMLogEntry {
    const key: nat
    const eventHost: Host
    const eventTime: real
    var processID: Pid
    var eventString: Option<string>
    var updated: bool
    var dead: bool
    var duration: int
    var displayTimeout: Option<real>
    var query: Option<Row>
    var slaveStatus: Option<SlaveStatus>

    constructor (key: nat, host: Host, pid: Pid, now: real)
      ensures View() == NewEntry(key, host, pid, now)
    {
      this.key, eventHost, eventTime, processID := key, host, now, pid;
      eventString, updated, dead, duration := None, false, false, 0;
      displayTimeout, query, slaveStatus := None, None, None;
    }

    /** What `updateMySQLQueries:host:` writes. */
    method WriteRow(row: Row, m: Moment)
      requires row.info.Some?
      modifies this
      ensures View() == WithRow(old(View()), row, m)
    {
      updated := true;
      eventString := Some(RowText(row));
      duration := row.time;
      if duration == 2147483647 {
        duration := 1;
      }
      if duration >= m.triggerTimer {
        displayTimeout := Some(m.now + m.slider as real);
      } else {
        displayTimeout := None;
      }
      query := Some(row);
    }

    /** What `updateMySQLSlaveStatus:host:` writes. */
    method WriteSlaveStatus(status: SlaveStatus, m: Moment)
      modifies this
      ensures View() == WithSlave(old(View()), status, m)
    {
      updated := true;
      slaveStatus := Some(status);
      if status.behind > 1 {
        eventString := Some("Replication has fallen behind");
        duration := ToInt32(status.behind);
      } else {
        eventString := Some("Replication is Broken!");
        duration := Truncated(m.now - eventTime);
      }
      if duration >= m.triggerTimer {
        displayTimeout := Some(m.now + m.slider as real);
      }
    }

    /** What `updateMySQLFail:` writes. */
    method WriteFail(now: real)
      modifies this
      ensures View() == WithFail(old(View()), now)
    {
      updated := true;
      duration := Truncated(now - eventTime);
    }

    /** What the refresh operation does to an entry. */
    method Expire(active: set<Host>, slider: int, now: real)
      modifies this
      ensures View() == Refreshed(old(View()), active, slider, now)
    {
      if eventHost !in active {
        dead := true;
        displayTimeout := None;
      }
      if displayTimeout.Some? && slider >= 0 {
        if displayTimeout.value < now {
          displayTimeout := None;
        }
      }
    }

    function View(): Entry
      reads this
    {
      Entry(key, eventHost, processID, eventString, eventTime, updated, dead, duration,
            displayTimeout, query, slaveStatus)
    }
  }

  ghost predicate Distinct(list: seq<DBMLogEntry>) {
    forall i, j :: 0 <= i < j < |list| ==> list[i] != list[j]
  }

  // ---------------------------------------------------------------- removing objects

  /** The list without the objects in `gone`. */
  function Without(list: seq<DBMLogEntry>, gone: set<DBMLogEntry>): seq<DBMLogEntry> {
    if list == [] then []
    else
      var rest, e := Without(list[..|list| - 1], gone), list[|list| - 1];
      if e in gone then rest else rest + [e]
  }

  lemma {:induction false} WithoutStays(list: seq<DBMLogEntry>, gone: set<DBMLogEntry>)
    ensures forall e :: e in Without(list, gone) ==> e in list
    ensures Distinct(list) ==> Distinct(Without(list, gone))
  {
    if list != [] {
      var front, e := list[..|list| - 1], list[|list| - 1];
      WithoutStays(front, gone);
      assert list == front + [e];
      assert Distinct(list) ==> e !in front;
    }
  }

  function Elements(list: seq<DBMLogEntry>): (r: set<DBMLogEntry>)
    ensures forall e | e in list :: e in r
    ensures forall e | e in r :: e in list
  {
    if list == [] then {} else Elements(list[..|list| - 1]) + {list[|list| - 1]}
  }

  lemma {:induction false} WithoutNothing(list: seq<DBMLogEntry>)
    ensures Without(list, {}) == list
  {
    if list != [] {
      WithoutNothing(list[..|list| - 1]);
    }
  }

  lemma {:induction false} WithoutBoth(list: seq<DBMLogEntry>, a: set<DBMLogEntry>, b: set<DBMLogEntry>)
    ensures Without(Without(list, a), b) == Without(list, a + b)
  {
    if list != [] {
      var front, e := list[..|list| - 1], list[|list| - 1];
      WithoutBoth(front, a, b);
      if e !in a {
        assert (Without(front, a) + [e])[..|Without(front, a)|] == Without(front, a);
      }
    }
  }

  /** The objects of `list` show the entries of `l`, place by place. */
  ghost predicate Shown(list: seq<DBMLogEntry>, l: seq<Entry>)
    reads list
  {
    |list| == |l| && forall i :: 0 <= i < |list| ==> list[i].View() == l[i]
  }

  // Marking the survivors and removing the discards is a sweep of the entries `was`.
  lemma {:induction false} SweepShown(
      list: seq<DBMLogEntry>, was: seq<Entry>, gone: set<DBMLogEntry>, h: Host, track: bool)
    requires |was| == |list|
    requires forall i :: 0 <= i < |list| ==> (list[i] in gone <==> Discarded(was[i], h, track))
    requires forall i :: 0 <= i < |list| && list[i] !in gone ==> list[i].View() == Swept(was[i], h)
    ensures Shown(Without(list, gone), SweepList(was, h, track))
  {
    if list != [] {
      var n := |list| - 1;
      SweepShown(list[..n], was[..n], gone, h, track);
    }
  }

  // The list after the object at `at` was taken out.
  lemma ShowsRemoval(list: seq<DBMLogEntry>, l: seq<Entry>, at: nat)
    requires Distinct(list) && Shown(list, l) && at < |list|
    ensures var rest := list[..at] + list[at + 1..];
            && Distinct(rest) && Shown(rest, l[..at] + l[at + 1..])
            && forall i :: 0 <= i < |rest| ==> rest[i] in list
  {
    var rest := list[..at] + list[at + 1..];
    assert forall i :: 0 <= i < |rest| ==> rest[i] == list[if i < at then i else i + 1];
  }

  /** The log in which the entry for a process has been found or created. */
  function Found(l: Log, h: Host, pid: Pid, now: real): (r: Log)
    ensures Find(l.entries, h, pid) < |r.entries|
  {
    if Find(l.entries, h, pid) < |l.entries| then l
    else Log(l.entries + [NewEntry(l.next, h, pid, now)], l.next + 1)
  }

  // What is written into the entry found or created.
  function Filled(l: Log, h: Host, u: Update, now: real): Entry
    requires Applicable(u)
  {
    var at := Find(l.entries, h, PidOf(u));
    Written(if at < |l.entries| then l.entries[at] else Created(l.next, h, u, now), u)
  }

  lemma FoundOrNew(l: Log, h: Host, u: Update, now: real)
    requires Applicable(u) && !u.FromFail?
    ensures Filled(l, h, u, now) == Written(Found(l, h, PidOf(u), now).entries[Find(l.entries, h, PidOf(u))], u)
  {
  }

  lemma UpsertFills(l: Log, h: Host, u: Update, now: real)
    requires Applicable(u)
    ensures var at, found := Find(l.entries, h, PidOf(u)), Found(l, h, PidOf(u), now);
            Upsert(l, h, u, now) == Log(found.entries[at := Filled(l, h, u, now)], found.next)
  {
  }

  lemma DeadHostsNext(l: seq<Entry>, active: set<Host>, i: nat)
    requires i < |l|
    ensures DeadHosts(l[..i + 1], active)
         == DeadHosts(l[..i], active) + if l[i].host in active then [] else [l[i].host]
  {
    assert l[..i + 1][..i] == l[..i];
  }

  lemma SweepHostsNext(l: seq<Entry>, hosts: seq<Host>, track: bool, i: nat)
    requires i < |hosts|
    ensures SweepHosts(l, hosts[..i + 1], track) == SweepList(SweepHosts(l, hosts[..i], track), hosts[i], track)
  {
    assert hosts[..i + 1][..i] == hosts[..i];
  }

  /** The settings of a host and its pool. */
  datatype HostConfig = HostConfig(host: Host, slave: bool, monitorTimer: int, triggerTimer: int)

  class DBMDocument {
    var dataList: seq<DBMLogEntry>
    var created: nat       // number of entries ever created
    var sliderValue: int
    var trackQuery: bool

    ghost var log: Log     // what the list shows

    ghost predicate Valid()
      reads this, dataList
    {
      Distinct(dataList) && Shown(dataList, log.entries) && created == log.next
    }

    constructor ()
      ensures Valid() && log == EMPTY
    {
      dataList, created, sliderValue, trackQuery, log := [], 0, 0, true, EMPTY;
    }

    /** `clearUpdates:` */
    method ClearUpdates(h: Host)
      requires Valid()
      modifies this`log, dataList
      ensures Valid() && log == Log(ClearList(old(log.entries), h), old(log.next))
    {
      for i := 0 to |dataList|
        modifies dataList
        invariant forall j :: 0 <= j < i ==> dataList[j].View() == Unmarked(log.entries[j], h)
        invariant forall j :: i <= j < |dataList| ==> dataList[j].View() == log.entries[j]
      {
        if dataList[i].eventHost == h {
          dataList[i].updated := false;
        }
      }
      log := Log(ClearList(log.entries, h), log.next);
    }

    /**
     The start of every update: the last entry that matches, or a new one at the end of the list.
     `at` is its place.
     */
    method FindOrCreate(h: Host, pid: Pid, now: real) returns (entry: DBMLogEntry, ghost at: nat)
      requires Valid()
      modifies this`dataList, this`created, this`log
      ensures Valid() && log == Found(old(log), h, pid, now)
      ensures at == Find(old(log.entries), h, pid) && at < |dataList| && entry == dataList[at]
      ensures at < |old(dataList)| ==> dataList == old(dataList)
      ensures at == |old(dataList)| ==> dataList == old(dataList) + [entry] && fresh(entry)
    {
      var found: DBMLogEntry? := null;
      at := |dataList|;
      for i := 0 to |dataList|
        invariant found == null ==> at == |dataList| && forall j :: 0 <= j < i ==> !Matches(log.entries[j], h, pid)
        invariant found != null ==>
          && at < i && found == dataList[at] && Matches(log.entries[at], h, pid)
          && forall j :: at < j < i ==> !Matches(log.entries[j], h, pid)
      {
        assert dataList[i].View() == log.entries[i];
        if dataList[i].eventHost == h && dataList[i].processID == pid {
          found, at := dataList[i], i;
        }
      }
      if found == null {
        found := new DBMLogEntry(created, h, pid, now);
        dataList, created := dataList + [found], created + 1;
        log := Log(log.entries + [found.View()], log.next + 1);
      }
      entry := found;
    }

    // The end of every update: what was written into the object at `at` enters the log.
    ghost method Record(at: nat, l: Log, h: Host, u: Update, now: real)
      requires Applicable(u) && log == Found(l, h, PidOf(u), now) && at == Find(l.entries, h, PidOf(u))
      requires Distinct(dataList) && created == log.next && at < |dataList| == |log.entries|
      requires forall i :: 0 <= i < |dataList| && i != at ==> dataList[i].View() == log.entries[i]
      requires dataList[at].View() == Filled(l, h, u, now)
      modifies this`log
      ensures Valid() && log == Upsert(l, h, u, now)
    {
      UpsertFills(l, h, u, now);
      log := Log(log.entries[at := Filled(l, h, u, now)], log.next);
    }

    /** One locked block of `updateMySQLQueries:host:`, for one row. */
    method PutRow(config: HostConfig, row: Row, now: real)
      requires Valid() && row.info.Some?
      modifies this`dataList, this`created, this`log, dataList
      ensures Valid()
      ensures forall i :: 0 <= i < |dataList| ==> dataList[i] in old(dataList) || fresh(dataList[i])
      ensures log ==
        Upsert(old(log), config.host, FromRow(row, Moment(now, sliderValue, config.triggerTimer)), now)
    {
      var m := Moment(now, sliderValue, config.triggerTimer);
      var entry, at := FindOrCreate(config.host, Number(row.id), now);
      assert entry.View() == log.entries[at];
      FoundOrNew(old(log), config.host, FromRow(row, m), now);
      entry.WriteRow(row, m);
      assert entry.View() == Filled(old(log), config.host, FromRow(row, m), now);
      Record(at, old(log), config.host, FromRow(row, m), now);
    }

    /** The locked block of `updateMySQLSlaveStatus:host:`. */
    method PutSlaveStatus(config: HostConfig, status: SlaveStatus, now: real)
      requires Valid() && Lagging(status)
      modifies this`dataList, this`created, this`log, dataList
      ensures Valid()
      ensures forall i :: 0 <= i < |dataList| ==> dataList[i] in old(dataList) || fresh(dataList[i])
      ensures log ==
        Upsert(old(log), config.host, FromSlave(status, Moment(now, sliderValue, config.triggerTimer)), now)
    {
      var m := Moment(now, sliderValue, config.triggerTimer);
      var entry, at := FindOrCreate(config.host, REPLICATION, now);
      assert entry.View() == log.entries[at];
      FoundOrNew(old(log), config.host, FromSlave(status, m), now);
      entry.WriteSlaveStatus(status, m);
      assert entry.View() == Filled(old(log), config.host, FromSlave(status, m), now);
      Record(at, old(log), config.host, FromSlave(status, m), now);
    }

    /** `updateMySQLFail:` */
    method UpdateMySQLFail(h: Host, now: real)
      requires Valid()
      modifies this`dataList, this`created, this`log, dataList
      ensures Valid()
      ensures forall i :: 0 <= i < |dataList| ==> dataList[i] in old(dataList) || fresh(dataList[i])
      ensures log == Upsert(old(log), h, FromFail(now), now)
    {
      var before := |dataList|;
      var entry, at := FindOrCreate(h, NO_CONNECTION, now);
      if |dataList| > before {
        entry.eventString := Some("Could not connect to host!");
      }
      entry.WriteFail(now);
      Record(at, old(log), h, FromFail(now), now);
    }

    // The first loop of `discardMySQLDead:`: collect what goes, mark what stays.
    method CollectDiscards(h: Host) returns (discards: seq<DBMLogEntry>)
      requires Valid()
      modifies dataList
      ensures forall j :: 0 <= j < |dataList| ==>
        (dataList[j] in discards <==> Discarded(log.entries[j], h, trackQuery))
      ensures forall j :: 0 <= j < |dataList| && dataList[j] !in discards ==>
        dataList[j].View() == Swept(log.entries[j], h)
    {
      discards := [];
      for i := 0 to |dataList|
        invariant forall e :: e in discards ==> e in dataList[..i]
        invariant forall j :: 0 <= j < i ==>
          (dataList[j] in discards <==> Discarded(log.entries[j], h, trackQuery))
        invariant forall j :: 0 <= j < i && dataList[j] !in discards ==>
          dataList[j].View() == Swept(log.entries[j], h)
        invariant forall j :: i <= j < |dataList| ==> dataList[j].View() == log.entries[j]
      {
        var entry := dataList[i];
        assert entry !in dataList[..i];
        if entry.eventHost == h && !entry.updated {
          if entry.displayTimeout.None? {
            discards := discards + [entry];
          } else if !trackQuery {
            discards := discards + [entry];
          } else {
            entry.dead := true;
            entry.processID := DeadProcess;
          }
        }
      }
    }

    // Its second loop.
    method RemoveObjects(discards: seq<DBMLogEntry>)
      modifies this`dataList
      ensures dataList == Without(old(dataList), Elements(discards))
    {
      ghost var list := dataList;
      WithoutNothing(list);
      for i := 0 to |discards|
        invariant dataList == Without(list, Elements(discards[..i]))
      {
        WithoutBoth(list, Elements(discards[..i]), {discards[i]});
        assert discards[..i + 1][..i] == discards[..i];
        dataList := Without(dataList, {discards[i]});
      }
      assert discards[..|discards|] == discards;
    }

    /** `discardMySQLDead:` */
    method DiscardMySQLDead(h: Host)
      requires Valid()
      modifies this`dataList, this`log, dataList
      ensures Valid()
      ensures forall i :: 0 <= i < |dataList| ==> dataList[i] in old(dataList)
      ensures log == Log(SweepList(old(log.entries), h, trackQuery), old(log.next))
    {
      var discards := CollectDiscards(h);
      ghost var list := dataList;
      RemoveObjects(discards);
      WithoutStays(list, Elements(discards));
      SweepShown(list, log.entries, Elements(discards), h, trackQuery);
      log := Log(SweepList(log.entries, h, trackQuery), log.next);
    }

    // The loop over the entries in the refresh operation.
    method ExpireEntries(active: set<Host>, clock: seq<real>) returns (deadHosts: seq<Host>)
      requires Valid() && |clock| == |dataList|
      modifies this`log, dataList
      ensures Valid() && deadHosts == DeadHosts(old(log.entries), active)
      ensures log == Log(RefreshEach(old(log.entries), active, sliderValue, clock), old(log.next))
    {
      deadHosts := [];
      for i := 0 to |dataList|
        modifies dataList
        invariant deadHosts == DeadHosts(log.entries[..i], active)
        invariant forall j :: 0 <= j < i ==>
          dataList[j].View() == Refreshed(log.entries[j], active, sliderValue, clock[j])
        invariant forall j :: i <= j < |dataList| ==> dataList[j].View() == log.entries[j]
      {
        assert dataList[i].View() == log.entries[i];
        DeadHostsNext(log.entries, active, i);
        if dataList[i].eventHost !in active {
          deadHosts := deadHosts + [dataList[i].eventHost];
        }
        dataList[i].Expire(active, sliderValue, clock[i]);
      }
      assert log.entries[..|dataList|] == log.entries;
      log := Log(RefreshEach(log.entries, active, sliderValue, clock), log.next);
    }

    /**
     The list part of `generateRefreshOperation`, without selection and sorting; `clock` is the
     clock as it is read at each entry.
     */
    method RefreshEntries(active: set<Host>, clock: seq<real>)
      requires Valid() && |clock| == |dataList|
      modifies this`dataList, this`log, dataList
      ensures Valid()
      ensures forall i :: 0 <= i < |dataList| ==> dataList[i] in old(dataList)
      ensures log == Log(RefreshList(old(log.entries), active, sliderValue, clock, trackQuery), old(log.next))
    {
      var deadHosts := ExpireEntries(active, clock);
      ghost var refreshed := log.entries;
      for i := 0 to |deadHosts|
        invariant Valid()
        invariant forall i :: 0 <= i < |dataList| ==> dataList[i] in old(dataList)
        invariant log == Log(SweepHosts(refreshed, deadHosts[..i], trackQuery), old(log.next))
      {
        DiscardMySQLDead(deadHosts[i]);
        SweepHostsNext(refreshed, deadHosts, trackQuery, i);
      }
      assert deadHosts[..|deadHosts|] == deadHosts;
    }

    /**
     The part of `killProcess:` that removes the selected entry.  A selected row past the end of
     the list, which has changed since, raises an exception.
     */
    method RemoveSelectedEntry(selected: Option<nat>) returns (raised: bool)
      requires Valid()
      modifies this`dataList, this`log
      ensures Valid()
      ensures raised <==> selected.Some? && selected.value >= |old(dataList)|
      ensures forall i :: 0 <= i < |dataList| ==> dataList[i] in old(dataList)
      ensures log == if raised || selected.None? then old(log)
                     else Log(RemoveSelected(old(log.entries), selected.value), old(log.next))
    {
      if selected.None? {
        return false;
      }
      var row := selected.value;
      if row >= |dataList| {
        return true;
      }
      raised := false;
      var entry := dataList[row];
      assert entry.View() == log.entries[row];
      ShowsRemoval(dataList, log.entries, row);
      if entry.processID == REPLICATION {
        return;
      } else if entry.processID == NO_CONNECTION {
        dataList := dataList[..row] + dataList[row + 1..];
      } else if entry.processID == DeadProcess {
        dataList := dataList[..row] + dataList[row + 1..];
      }
      log := Log(RemoveSelected(log.entries, row), log.next);
    }

    /** `updateMySQLQueries:host:`, for the rows fetched; the clock is read once per row. */
    method UpdateMySQLQueries(config: HostConfig, rows: seq<Row>, clock: seq<real>)
      requires Valid() && |clock| == |rows|
      modifies this`dataList, this`created, this`log, dataList
      ensures Valid()
      ensures forall i :: 0 <= i < |dataList| ==> dataList[i] in old(dataList) || fresh(dataList[i])
      ensures log == Run(old(log), RowSteps(config, sliderValue, rows, clock))
    {
      for i := 0 to |rows|
        invariant Valid()
        invariant forall i :: 0 <= i < |dataList| ==> dataList[i] in old(dataList) || fresh(dataList[i])
        invariant log == Run(old(log), RowSteps(config, sliderValue, rows[..i], clock[..i]))
      {
        var row := rows[i];
        OneMoreRow(old(log), config, sliderValue, rows, clock, i);
        if row.info.Some? {
          if row.time > config.monitorTimer {
            PutRow(config, row, clock[i]);
          }
        }
      }
      assert rows[..|rows|] == rows && clock[..|rows|] == clock;
    }

    // What a poll operation does between mark and sweep.
    method PollBody(config: HostConfig, answers: Answers)
      requires Valid() && answers.Timed()
      modifies this`dataList, this`created, this`log, dataList
      ensures Valid()
      ensures forall i :: 0 <= i < |dataList| ==> dataList[i] in old(dataList) || fresh(dataList[i])
      ensures log == Run(old(log), BodySteps(config, sliderValue, answers))
    {
      match answers {
        case Unreachable(now) =>
          UpdateMySQLFail(config.host, now);
          RunOnePut(old(log), config.host, FromFail(now), now);
        case Answered(rows, clock, status, now) =>
          UpdateMySQLQueries(config, rows, clock);
          if config.slave && status.Some? && Lagging(status.value) {
            PutSlaveStatus(config, status.value, now);
            RunPut(old(log), RowSteps(config, sliderValue, rows, clock),
                   config.host, StatusUpdate(config, sliderValue, status.value, now), now);
          }
      }
    }

    /**
     The operation of `generateMySQLOperation:`, run without interruption: its steps, with the
     deadlines that the controls and the clock give, are a poll cycle, after which the log shows
     for the host exactly what was reported.
     */
    method PollOnce(config: HostConfig, answers: Answers)
      requires Valid() && answers.Timed()
      modifies this`dataList, this`created, this`log, dataList
      ensures Valid()
      ensures forall i :: 0 <= i < |dataList| ==> dataList[i] in old(dataList) || fresh(dataList[i])
      ensures log == Run(old(log), PollSteps(config, sliderValue, trackQuery, answers))
      ensures IsCycleRun(PollSteps(config, sliderValue, trackQuery, answers),
                         config.host, config.monitorTimer, Seen(config, answers))
    {
      ClearUpdates(config.host);
      PollBody(config, answers);
      DiscardMySQLDead(config.host);
      WholeCycle(old(log), BodySteps(config, sliderValue, answers), config.host, trackQuery);
      PollIsCycle(config, sliderValue, trackQuery, answers);
    }
  }

  /**
   What a poll meets: no connection, or rows (none if the query failed) and a status (None if it
   failed), with the clock as it is read for each row and for the rest.
   */
  datatype Answers =
    | Unreachable(now: real)
    | Answered(rows: seq<Row>, clock: seq<real>, status: Option<SlaveStatus>, now: real)
  {
    predicate Timed() {
      Answered? ==> |clock| == |rows|
    }
  }

  /** The part of it that reaches the log: the status is asked for on slaves only. */
  function Seen(config: HostConfig, answers: Answers): Outcome {
    match answers
    case Unreachable(_) => NoConnection
    case Answered(rows, _, status, _) => Connected(rows, if config.slave then status else None)
  }

  function RowUpdate(config: HostConfig, slider: int, row: Row, now: real): Update {
    FromRow(row, Moment(now, slider, config.triggerTimer))
  }

  function StatusUpdate(config: HostConfig, slider: int, status: SlaveStatus, now: real): Update {
    FromSlave(status, Moment(now, slider, config.triggerTimer))
  }

  /** One update for each row that passes the filter, in order. */
  function RowSteps(config: HostConfig, slider: int, rows: seq<Row>, clock: seq<real>): seq<Step>
    requires |clock| == |rows|
  {
    if rows == [] then []
    else
      var n := |rows| - 1;
      var front := RowSteps(config, slider, rows[..n], clock[..n]);
      if Passes(rows[n], config.monitorTimer)
      then front + [Put(config.host, RowUpdate(config, slider, rows[n], clock[n]), clock[n])]
      else front
  }

  function BodySteps(config: HostConfig, slider: int, answers: Answers): seq<Step>
    requires answers.Timed()
  {
    match answers
    case Unreachable(now) => [Put(config.host, FromFail(now), now)]
    case Answered(rows, clock, status, now) =>
      var steps := RowSteps(config, slider, rows, clock);
      if config.slave && status.Some? && Lagging(status.value)
      then steps + [Put(config.host, StatusUpdate(config, slider, status.value, now), now)]
      else steps
  }

  /** The steps of one poll operation. */
  function PollSteps(config: HostConfig, slider: int, track: bool, answers: Answers): seq<Step>
    requires answers.Timed()
  {
    [Clear(config.host)] + BodySteps(config, slider, answers) + [Sweep(config.host, track)]
  }

  lemma RunOneMore(l: Log, steps: seq<Step>, s: Step)
    requires Possible(Run(l, steps), s)
    ensures Run(l, steps + [s]) == Do(Run(l, steps), s)
  {
    assert (steps + [s])[..|steps|] == steps;
  }

  lemma RunPut(l: Log, steps: seq<Step>, h: Host, u: Update, now: real)
    requires Applicable(u)
    ensures Run(l, steps + [Put(h, u, now)]) == Upsert(Run(l, steps), h, u, now)
  {
    RunOneMore(l, steps, Put(h, u, now));
  }

  lemma RunOnePut(l: Log, h: Host, u: Update, now: real)
    requires Applicable(u)
    ensures Run(l, [Put(h, u, now)]) == Upsert(l, h, u, now)
  {
    assert [Put(h, u, now)][..0] == [];
  }

  // The next row becomes a step if it passes the filter.
  lemma OneMoreRow(l: Log, config: HostConfig, slider: int, rows: seq<Row>, clock: seq<real>, i: nat)
    requires |clock| == |rows| && i < |rows|
    ensures var before, after := Run(l, RowSteps(config, slider, rows[..i], clock[..i])),
                                 Run(l, RowSteps(config, slider, rows[..i + 1], clock[..i + 1]));
      after == if Passes(rows[i], config.monitorTimer)
               then Upsert(before, config.host, RowUpdate(config, slider, rows[i], clock[i]), clock[i])
               else before
  {
    assert rows[..i + 1][..i] == rows[..i] && clock[..i + 1][..i] == clock[..i];
    if Passes(rows[i], config.monitorTimer) {
      RunPut(l, RowSteps(config, slider, rows[..i], clock[..i]),
             config.host, RowUpdate(config, slider, rows[i], clock[i]), clock[i]);
    }
  }

  ghost predicate AreRowSteps(steps: seq<Step>, h: Host, passing: seq<Row>) {
    && |steps| == |passing|
    && forall k :: 0 <= k < |steps| ==>
         steps[k].Put? && steps[k].h == h && steps[k].u.FromRow? && steps[k].u.row == passing[k]
  }

  lemma {:induction false} RowStepsPass(config: HostConfig, slider: int, rows: seq<Row>, clock: seq<real>)
    requires |clock| == |rows|
    ensures AreRowSteps(RowSteps(config, slider, rows, clock), config.host, Passing(rows, config.monitorTimer))
  {
    if rows != [] {
      RowStepsPass(config, slider, rows[..|rows| - 1], clock[..|rows| - 1]);
    }
  }

  /** The steps of a poll are one cycle of its host. */
  lemma PollIsCycle(config: HostConfig, slider: int, track: bool, answers: Answers)
    requires answers.Timed()
    ensures IsCycleRun(PollSteps(config, slider, track, answers),
                       config.host, config.monitorTimer, Seen(config, answers))
  {
    if answers.Answered? {
      RowStepsPass(config, slider, answers.rows, answers.clock);
    }
    CycleOfBody(BodySteps(config, slider, answers), config.host, track, config.monitorTimer, Seen(config, answers));
  }

  lemma {:induction false} RunConcat(l: Log, a: seq<Step>, b: seq<Step>)
    ensures Run(l, a + b) == Run(Run(l, a), b)
  {
    if b == [] {
      assert a + b == a;
    } else {
      RunConcat(l, a, b[..|b| - 1]);
      assert (a + b)[..|a + b| - 1] == a + b[..|b| - 1];
    }
  }

  lemma WholeCycle(l: Log, body: seq<Step>, h: Host, track: bool)
    ensures var swept := Run(Log(ClearList(l.entries, h), l.next), body);
      Run(l, [Clear(h)] + body + [Sweep(h, track)]) == Log(SweepList(swept.entries, h, track), swept.next)
  {
    RunOneMore(l, [], Clear(h));
    assert [] + [Clear(h)] == [Clear(h)];
    RunConcat(l, [Clear(h)], body);
    RunOneMore(l, [Clear(h)] + body, Sweep(h, track));
  }

  lemma {:induction false} AllOwn(steps: seq<Step>, h: Host)
    requires forall k :: 0 <= k < |steps| ==> Owned(steps[k], h)
    ensures Own(steps, h) == steps
  {
    if steps != [] {
      AllOwn(steps[..|steps| - 1], h);
    }
  }

  lemma CycleOfBody(body: seq<Step>, h: Host, track: bool, monitorTimer: int, o: Outcome)
    requires IsBody(body, h, monitorTimer, o)
    ensures IsCycleRun([Clear(h)] + body + [Sweep(h, track)], h, monitorTimer, o)
  {
    var steps := [Clear(h)] + body + [Sweep(h, track)];
    AllOwn(steps, h);
    assert steps[1..|steps| - 1] == body;
  }
}
