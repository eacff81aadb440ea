/** scan_processes on the values read from /proc: the history of CPU times and the three rankings. */
module ProcessScan {
  import opened ProcessHistory
  import opened Arith
  import TopList

  type Process = TopList.Process

  /**
   What is read about one process.  `hidden` says that its name is blacklisted, `matches` that
   a search is on and its name contains what is searched for.
   */
  datatype Sample = Sample(pid: nat, time: nat, rss: int, hidden: bool, matches: bool)

  /** The value of a 64-bit unsigned number converted to `int`. */
  function ToInt(v: nat): (r: int)
    ensures -0x8000_0000 <= r < 0x8000_0000
  {
    var w := v % 0x1_0000_0000;
    if w < 0x8000_0000 then w else w - 0x1_0000_0000
  }

  /** `/` on `int`, which truncates toward zero. */
  function Quotient(a: int, b: int): int
    requires b > 0
  {
    if a >= 0 then a / b else -((-a) / b)
  }

  /** Percent of one core, a 64-bit quotient converted to `int`; ticks are hundredths of a second. */
  function OneCore(ticks: nat, deltaMs: nat): int
    requires deltaMs > 0
  {
    ToInt(ticks * 1000 % 0x1_0000_0000_0000_0000 / deltaMs)
  }

  /** CPU use since the previous scan; nothing in the first scan, or when the counter has gone back. */
  function Percent(before: nat, time: nat, first: bool, deltaMs: nat, cores: int): int
    requires deltaMs > 0
  {
    var p := OneCore(if !first && time >= before then time - before else 0, deltaMs);
    if cores > 0 then Quotient(p, cores) else p
  }

  /** The first scan shows 0, and so does a counter that has gone back. */
  lemma NothingToShow(before: nat, time: nat, first: bool, deltaMs: nat, cores: int)
    requires deltaMs > 0 && (first || time < before)
    ensures Percent(before, time, first, deltaMs, cores) == 0
  {
    ZeroOver(deltaMs);
  }

  lemma ZeroOver(d: nat)
    requires d > 0
    ensures 0 / d == 0
  {
  }

  /** A process that keeps all cores busy all the time, in ticks of ten milliseconds, is shown with 100 percent. */
  lemma FullLoad(before: nat, ticks: nat, cores: nat)
    requires ticks > 0 && cores > 0 && ticks * cores * 1000 < 0x1_0000_0000_0000_0000 && cores * 100 < 0x8000_0000
    ensures Percent(before, before + ticks * cores, false, 10 * ticks, cores) == 100
    ensures Percent(before, before + ticks, false, 10 * ticks, 0) == 100
  {
    hide OneCore;
    BusyCores(ticks, cores);
    MulMono(ticks, 1, cores);
    BusyCores(ticks, 1);
    assert ticks * 1 == ticks;
    DivMul(100, cores);
  }

  lemma BusyCores(ticks: nat, cores: nat)
    requires ticks > 0 && cores > 0 && ticks * cores * 1000 < 0x1_0000_0000_0000_0000 && cores * 100 < 0x8000_0000
    ensures OneCore(ticks * cores, 10 * ticks) == cores * 100
  {
    FullQuotient(ticks, cores);
  }

  lemma FullQuotient(ticks: nat, cores: nat)
    requires ticks > 0 && cores > 0
    ensures ticks * cores * 1000 / (10 * ticks) == cores * 100
  {
    assert ticks * cores * 1000 == cores * 100 * (10 * ticks);
    DivMul(cores * 100, 10 * ticks);
  }

  function TimeIn(times: map<nat, nat>, pid: nat): nat
  {
    if pid in times then times[pid] else 0
  }

  // ---------- what a scan should produce ----------

  ghost function Times(s: seq<Sample>): (r: map<nat, nat>)
    ensures forall pid :: pid in r <==> exists i :: 0 <= i < |s| && s[i].pid == pid
    ensures |r| <= |s|
  {
    if s == [] then map[] else
      var last := s[|s| - 1];
      var r := Times(s[..|s| - 1]);
      assert forall i :: 0 <= i < |s| - 1 ==> s[..|s| - 1][i] == s[i];
      assert r[last.pid := last.time].Keys == r.Keys + {last.pid};
      r[last.pid := last.time]
  }

  datatype List = Memory | Cpu | Search

  /** The processes that take part in a ranking, in the order of the scan. */
  function Listed(s: seq<Sample>, which: List, before: map<nat, nat>, first: bool, deltaMs: nat, cores: int): seq<Process>
    requires deltaMs > 0
  {
    if s == [] then []
    else
      var rest, p := Listed(s[..|s| - 1], which, before, first, deltaMs, cores), s[|s| - 1];
      if p.hidden || (which.Search? && !p.matches) then rest
      else rest + [TopList.Process(if which.Cpu? then Percent(TimeIn(before, p.pid), p.time, first, deltaMs, cores) else p.rss, p.pid)]
  }

  /** Who is listed, and with which value. */
  lemma {:induction false} ListedAre(s: seq<Sample>, before: map<nat, nat>, first: bool, deltaMs: nat, cores: int, key: int, pid: nat)
    requires deltaMs > 0
    ensures TopList.Process(key, pid) in Listed(s, Memory, before, first, deltaMs, cores) <==>
              exists i :: 0 <= i < |s| && !s[i].hidden && s[i].pid == pid && s[i].rss == key
    ensures TopList.Process(key, pid) in Listed(s, Search, before, first, deltaMs, cores) <==>
              exists i :: 0 <= i < |s| && !s[i].hidden && s[i].matches && s[i].pid == pid && s[i].rss == key
    ensures TopList.Process(key, pid) in Listed(s, Cpu, before, first, deltaMs, cores) <==>
              exists i :: 0 <= i < |s| && !s[i].hidden && s[i].pid == pid && Percent(TimeIn(before, pid), s[i].time, first, deltaMs, cores) == key
  {
    hide Percent, TimeIn;
    if s != [] {
      var n := |s| - 1;
      ListedAre(s[..n], before, first, deltaMs, cores, key, pid);
      assert forall i :: 0 <= i < n ==> s[..n][i] == s[i];
    }
  }

  ghost predicate ListIs(a: seq<Process>, num: nat, s: seq<Sample>, which: List, before: map<nat, nat>, first: bool, deltaMs: nat, cores: int)
    requires deltaMs > 0
  {
    var l := TopList.Top(TopList.Ranked(Listed(s, which, before, first, deltaMs, cores)));
    TopList.Holds(a, l) && num == |l|
  }

  lemma NextSample(s: seq<Sample>, n: nat)
    requires n < |s|
    ensures s[..n + 1][..n] == s[..n] && s[..n + 1][n] == s[n] && |s[..n + 1]| == n + 1
  {
  }

  /** All processes of a scan are different, and none has the number 0. */
  ghost predicate Distinct(s: seq<Sample>)
  {
    && (forall i :: 0 <= i < |s| ==> s[i].pid != 0)
    && forall i, j :: 0 <= i < j < |s| ==> s[i].pid != s[j].pid
  }

  lemma NotSeen(s: seq<Sample>, n: nat)
    requires Distinct(s) && n < |s|
    ensures s[n].pid != 0 && forall k :: 0 <= k <= n ==> s[n].pid !in Times(s[..k])
  {
    forall k, i | 0 <= i < k <= n ensures s[..k][i].pid != s[n].pid {
      assert s[..k][i] == s[i];
    }
  }

  /** The processes that fit into the table. */
  function Kept(s: seq<Sample>): seq<Sample>
  {
    if |s| <= HIST_SIZE then s else s[..HIST_SIZE]
  }

  lemma {:induction false} TimesSize(s: seq<Sample>)
    requires Distinct(s)
    ensures |Times(s)| == |s|
  {
    if s != [] {
      var n := |s| - 1;
      TimesSize(s[..n]);
      NotSeen(s, n);
      assert Times(s).Keys == Times(s[..n]).Keys + {s[n].pid};
    }
  }

  /** What storing one more process does, also when the table is full. */
  lemma NextTimes(s: seq<Sample>, n: nat)
    requires Distinct(s) && n < |s|
    ensures var r := Times(Kept(s[..n]));
            && s[n].pid != 0 && s[n].pid !in r
            && Times(Kept(s[..n + 1])) == if |r| < HIST_SIZE then r[s[n].pid := s[n].time] else r
  {
    hide Times;
    NotSeen(s, n);
    if n < HIST_SIZE {
      AddTime(s, n);
    } else {
      assert s[..n + 1][..HIST_SIZE] == s[..HIST_SIZE] == s[..n][..HIST_SIZE];
      FullTimes(s);
    }
  }

  lemma AddTime(s: seq<Sample>, n: nat)
    requires n < |s|
    ensures Times(s[..n + 1]) == Times(s[..n])[s[n].pid := s[n].time] && |Times(s[..n])| <= n
  {
    NextSample(s, n);
  }

  lemma FullTimes(s: seq<Sample>)
    requires Distinct(s) && |s| >= HIST_SIZE
    ensures |Times(s[..HIST_SIZE])| == HIST_SIZE
  {
    hide Times;
    TimesSize(s[..HIST_SIZE]);
  }

  // ---------- more processes than the table has room for ----------

  /**
   A process that did not fit into the table is compared with time 0 at the next scan.  It is
   shown with 0 percent exactly when the quotient, as an `int`, is smaller in magnitude than the
   number of cores; so not always, as the comment in scan_processes has it.
   */
  lemma BeyondTable(s: seq<Sample>, i: nat, time: nat, deltaMs: nat, cores: int)
    requires Distinct(s) && HIST_SIZE <= i < |s| && deltaMs > 0
    ensures s[i].pid !in Times(Kept(s))
    ensures (Percent(TimeIn(Times(Kept(s)), s[i].pid), time, false, deltaMs, cores) == 0)
         == if cores > 0 then -cores < OneCore(time, deltaMs) < cores else OneCore(time, deltaMs) == 0
  {
    hide OneCore, Quotient, Times, Distinct;
    NotSeen(s, i);
    if cores > 0 {
      ZeroQuotient(OneCore(time, deltaMs), cores);
    }
  }

  lemma ZeroQuotient(v: int, cores: int)
    requires cores > 0
    ensures Quotient(v, cores) == 0 <==> -cores < v < cores
  {
  }

  function Crowd(n: nat): (s: seq<Sample>)
    ensures |s| == n && forall i :: 0 <= i < n ==> s[i] == Sample(i + 1, 100, 0, false, false)
  {
    seq(n, i requires 0 <= i < n => Sample(i + 1, 100, 0, false, false))
  }

  /** One process too many, all of them idle: a second later the last one is shown with 100 percent. */
  lemma OneTooMany()
    ensures var s := Crowd(HIST_SIZE + 1);
            && Distinct(s) && s[HIST_SIZE] == Sample(16385, 100, 0, false, false)
            && Percent(TimeIn(Times(Kept(s)), 16385), 100, false, 1000, 1) == 100
            && forall pid :: 1 <= pid <= HIST_SIZE ==> TimeIn(Times(Kept(s)), pid) == 100
  {
    hide Times, Crowd;
    CrowdKept();
    forall pid | 1 <= pid <= HIST_SIZE ensures TimeIn(Times(Crowd(HIST_SIZE)), pid) == 100 {
      CrowdTimes(HIST_SIZE, pid);
    }
    NotSeen(Crowd(HIST_SIZE + 1), HIST_SIZE);
  }

  lemma CrowdKept()
    ensures var s := Crowd(HIST_SIZE + 1); Kept(s) == s[..HIST_SIZE] == Crowd(HIST_SIZE) && Distinct(s)
  {
  }

  lemma {:induction false} CrowdTimes(n: nat, pid: nat)
    requires 1 <= pid <= n
    ensures TimeIn(Times(Crowd(n)), pid) == 100
  {
    assert Crowd(n)[..n - 1] == Crowd(n - 1);
    if pid < n {
      CrowdTimes(n - 1, pid);
    }
  }

  // ---------- the scan ----------

  /** One ranking after one more process. */
  method AddTo(a: array<Process>, num0: nat, key: int, s: seq<Sample>, n: nat, ghost which: List, ghost before: map<nat, nat>,
               ghost first: bool, ghost deltaMs: nat, ghost cores: int)
    returns (num: nat)
    requires n < |s| && deltaMs > 0 && ListIs(a[..], num0, s[..n], which, before, first, deltaMs, cores)
    requires !s[n].hidden && (which.Search? ==> s[n].matches)
    requires key == if which.Cpu? then Percent(TimeIn(before, s[n].pid), s[n].time, first, deltaMs, cores) else s[n].rss
    modifies a
    ensures ListIs(a[..], num, s[..n + 1], which, before, first, deltaMs, cores)
  {
    hide TopList.Holds, TopList.Top, TopList.Ranked, Percent, TimeIn;
    NextSample(s, n);
    num := TopList.Rank(a, TopList.Process(key, s[n].pid), num0, Listed(s[..n], which, before, first, deltaMs, cores));
  }

  /** A process that does not take part changes nothing. */
  lemma Passed(a: seq<Process>, num: nat, s: seq<Sample>, n: nat, which: List, before: map<nat, nat>, first: bool, deltaMs: nat, cores: int)
    requires n < |s| && deltaMs > 0 && ListIs(a, num, s[..n], which, before, first, deltaMs, cores)
    requires s[n].hidden || (which.Search? && !s[n].matches)
    ensures ListIs(a, num, s[..n + 1], which, before, first, deltaMs, cores)
  {
    hide TopList.Holds, TopList.Top, TopList.Ranked, Percent, TimeIn;
    NextSample(s, n);
  }

  /** The three rankings after one more process. */
  method RankSample(s: seq<Sample>, n: nat, percent: int, mem: array<Process>, cpu: array<Process>, search: array<Process>,
                    numMem0: nat, numCpu0: nat, numSearch0: nat,
                    ghost before: map<nat, nat>, ghost first: bool, ghost deltaMs: nat, ghost cores: int)
    returns (numMem: nat, numCpu: nat, numSearch: nat)
    requires n < |s| && deltaMs > 0 && mem != cpu && mem != search && cpu != search
    requires percent == Percent(TimeIn(before, s[n].pid), s[n].time, first, deltaMs, cores)
    requires ListIs(mem[..], numMem0, s[..n], Memory, before, first, deltaMs, cores)
    requires ListIs(cpu[..], numCpu0, s[..n], Cpu, before, first, deltaMs, cores)
    requires ListIs(search[..], numSearch0, s[..n], Search, before, first, deltaMs, cores)
    modifies mem, cpu, search
    ensures ListIs(mem[..], numMem, s[..n + 1], Memory, before, first, deltaMs, cores)
    ensures ListIs(cpu[..], numCpu, s[..n + 1], Cpu, before, first, deltaMs, cores)
    ensures ListIs(search[..], numSearch, s[..n + 1], Search, before, first, deltaMs, cores)
  {
    hide ListIs, Percent, TimeIn;
    numMem, numCpu, numSearch := numMem0, numCpu0, numSearch0;
    var p := s[n];
    if p.hidden {
      Passed(mem[..], numMem, s, n, Memory, before, first, deltaMs, cores);
      Passed(cpu[..], numCpu, s, n, Cpu, before, first, deltaMs, cores);
      Passed(search[..], numSearch, s, n, Search, before, first, deltaMs, cores);
    } else {
      numMem := AddTo(mem, numMem0, p.rss, s, n, Memory, before, first, deltaMs, cores);
      numCpu := AddTo(cpu, numCpu0, percent, s, n, Cpu, before, first, deltaMs, cores);
      if p.matches {
        numSearch := AddTo(search, numSearch0, p.rss, s, n, Search, before, first, deltaMs, cores);
      } else {
        Passed(search[..], numSearch, s, n, Search, before, first, deltaMs, cores);
      }
    }
  }

  /**
   One scan.  Each process is compared with what the previous scan has stored for it, the
   stored times become those of the processes of this scan that fit into the table, and each
   ranking holds the first fifteen of the processes that take part in it, stably sorted by
   descending value.
   */
  method ScanProcesses(hist: History, samples: seq<Sample>, first: bool, deltaMs0: nat, cores: int,
                       mem: array<Process>, cpu: array<Process>, search: array<Process>)
    returns (numMem: nat, numCpu: nat, numSearch: nat)
    requires hist.Valid() && Distinct(samples)
    requires mem.Length == cpu.Length == search.Length == TopList.MAX_TOP_PROCS && mem != cpu && mem != search && cpu != search
    modifies hist, hist.current, hist.previous, mem, cpu, search
    ensures hist.Valid() && hist.before == old(hist.now) && hist.now == Times(Kept(samples))
    ensures var deltaMs := if deltaMs0 == 0 then 1 else deltaMs0;
            && ListIs(mem[..], numMem, samples, Memory, old(hist.now), first, deltaMs, cores)
            && ListIs(cpu[..], numCpu, samples, Cpu, old(hist.now), first, deltaMs, cores)
            && ListIs(search[..], numSearch, samples, Search, old(hist.now), first, deltaMs, cores)
  {
    hide ListIs, Distinct, Times, Kept, Percent, History.Valid;
    ghost var before := hist.now;
    var deltaMs := if deltaMs0 == 0 then 1 else deltaMs0;
    TopList.Clear(mem);
    TopList.Clear(cpu);
    TopList.Clear(search);
    numMem, numCpu, numSearch := 0, 0, 0;
    NothingListed(mem[..], cpu[..], search[..], before, first, deltaMs, cores);
    hist.BeginScan();
    NoTimes();
    var n := 0;
    assert samples[..0] == [];
    while n < |samples|
      invariant 0 <= n <= |samples| && {hist.current, hist.previous} == old({hist.current, hist.previous})
      invariant hist.Valid() && hist.before == before && hist.now == Times(Kept(samples[..n]))
      invariant ListIs(mem[..], numMem, samples[..n], Memory, before, first, deltaMs, cores)
      invariant ListIs(cpu[..], numCpu, samples[..n], Cpu, before, first, deltaMs, cores)
      invariant ListIs(search[..], numSearch, samples[..n], Search, before, first, deltaMs, cores)
    {
      var p := samples[n];
      NextTimes(samples, n);
      var previous := hist.Lookup(p.pid);
      var percent := Percent(previous, p.time, first, deltaMs, cores);
      hist.Record(p.pid, p.time);
      numMem, numCpu, numSearch := RankSample(samples, n, percent, mem, cpu, search, numMem, numCpu, numSearch, before, first, deltaMs, cores);
      n := n + 1;
    }
    assert samples[..n] == samples;
  }

  lemma NothingListed(mem: seq<Process>, cpu: seq<Process>, search: seq<Process>, before: map<nat, nat>, first: bool, deltaMs: nat, cores: int)
    requires deltaMs > 0
    requires TopList.Holds(mem, TopList.Top(TopList.Ranked([]))) && TopList.Holds(cpu, TopList.Top(TopList.Ranked([])))
    requires TopList.Holds(search, TopList.Top(TopList.Ranked([])))
    ensures ListIs(mem, 0, [], Memory, before, first, deltaMs, cores) && ListIs(cpu, 0, [], Cpu, before, first, deltaMs, cores)
    ensures ListIs(search, 0, [], Search, before, first, deltaMs, cores)
  {
  }

  lemma NoTimes()
    ensures Times(Kept([])) == map[]
  {
  }
}
