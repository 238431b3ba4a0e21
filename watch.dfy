/** The ban-file watcher of watchBanFile (update.go:273-311): a baseline that is either
    unset or holds the file's size and modification time, compared with a fresh stat on
    every tick. The results of the tick's `os.Stat` calls come in as parameters, and the
    three callbacks are reported as an event trace instead of being run. */
module Watch {
  import opened BanTypes

  datatype Stat = Stat(size: int, modTime: int)

  /** The callbacks a detected change runs: readServerBanList, updateWebCache, compositeBans. */
  datatype WatchEvent = ReloadBanList | UpdateWebCache | CompositeBans

  const ChangeEvents: seq<WatchEvent> := [ReloadBanList, UpdateWebCache, CompositeBans]

  predicate Differs(a: Stat, b: Stat) {
    a.size != b.size || a.modTime != b.modTime
  }

  datatype PollResult = PollResult(baseline: Option<Stat>, events: seq<WatchEvent>)

  /** One tick. `first` is the stat taken when no baseline is set (update.go:279),
      `restat` the comparison stat (update.go:288) and `after` the stat that replaces the
      baseline after a change (update.go:302); a stat not taken is ignored. */
  function Poll(baseline: Option<Stat>, first: Option<Stat>, restat: Option<Stat>, after: Option<Stat>): (r: PollResult)
    // A change is signalled only against an existing baseline and a successful restat
    // that differs from it, and then the callbacks run in their fixed order.
    ensures r.events != [] <==>
      (var base := if baseline.Some? then baseline else first;
       base.Some? && restat.Some? && Differs(base.value, restat.value))
    ensures r.events == [] || r.events == [ReloadBanList, UpdateWebCache, CompositeBans]
    // After a signal the baseline is the new stat, or unset when that stat failed.
    ensures r.events != [] ==> r.baseline == after
    // Without a signal the baseline is the old one, or the first stat when there was none.
    ensures r.events == [] ==> r.baseline == if baseline.Some? then baseline else first
  {
    var base := if baseline.Some? then baseline else first;
    match base
    case None => PollResult(None, [])
    case Some(b) =>
      match restat
      case None => PollResult(base, [])
      case Some(s) =>
        if Differs(s, b) then PollResult(after, ChangeEvents) else PollResult(base, [])
  }

  /** Stats of one tick, in the order watchBanFile takes them. */
  datatype TickStats = TickStats(first: Option<Stat>, restat: Option<Stat>, after: Option<Stat>)

  /** The number of ticks that signal a change over a run of ticks. */
  function Signals(baseline: Option<Stat>, ticks: seq<TickStats>): nat
    decreases |ticks|
  {
    if ticks == [] then 0
    else
      var r := Poll(baseline, ticks[0].first, ticks[0].restat, ticks[0].after);
      (if r.events == [] then 0 else 1) + Signals(r.baseline, ticks[1..])
  }

  /** `n` ticks during which every stat sees the file as `s`. */
  function Steady(s: Stat, n: nat): (ticks: seq<TickStats>)
    ensures |ticks| == n
    ensures forall i :: 0 <= i < n ==> ticks[i] == TickStats(Some(s), Some(s), Some(s))
  {
    if n == 0 then [] else [TickStats(Some(s), Some(s), Some(s))] + Steady(s, n - 1)
  }

  /** An unchanged file never signals, whatever the baseline started as. */
  lemma {:induction false} SteadyFileIsQuiet(s: Stat, n: nat)
    ensures Signals(Some(s), Steady(s, n)) == 0
    ensures Signals(None, Steady(s, n)) == 0
  {
    if n > 0 {
      assert Steady(s, n)[1..] == Steady(s, n - 1);
      SteadyFileIsQuiet(s, n - 1);
    }
  }

  /** One modification of the watched file between polls is signalled exactly once,
      however many ticks follow. */
  lemma OneChangeOneSignal(was: Stat, s: Stat, n: nat)
    requires Differs(was, s) && n >= 1
    ensures Signals(Some(was), Steady(s, n)) == 1
  {
    assert Steady(s, n)[1..] == Steady(s, n - 1);
    SteadyFileIsQuiet(s, n - 1);
  }

  /** The first tick takes two stats, so it signals exactly when the file changed between
      them. */
  lemma FirstTickSignalsOnlyOnRace(first: Stat, restat: Stat, after: Option<Stat>)
    ensures Poll(None, Some(first), Some(restat), after).events != [] <==> Differs(first, restat)
  {
  }

  /** initialStat and the tick itself. */
  class BanFileWatcher {
    var initialStat: Option<Stat>

    constructor ()
      ensures initialStat == None
    {
      initialStat := None;
    }

    method WatchBanFile(first: Option<Stat>, restat: Option<Stat>, after: Option<Stat>) returns (events: seq<WatchEvent>)
      modifies this
      ensures var r := Poll(old(initialStat), first, restat, after);
        initialStat == r.baseline && events == r.events
    {
      events := [];
      var err := false;
      if initialStat == None {
        initialStat := first;
        err := first == None;
      }
      if err {
        return;
      }
      if initialStat != None {
        if restat == None {
          return;
        }
        var stat := restat.value;
        if stat.size != initialStat.value.size || stat.modTime != initialStat.value.modTime {
          events := events + [ReloadBanList];
          events := events + [UpdateWebCache];
          events := events + [CompositeBans];
          initialStat := after;
          return;
        }
      }
    }
  }
}
