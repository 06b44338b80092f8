/**
 The session metadata cache of apps/web/session_discovery.py as a transition system.

 Files are edited, replaced and deleted at any moment; any number of scans, of any app
 versions, run at once over the same cache file; within a scan the per-file tasks
 interleave freely.  A task stats its file, looks the mtime up in the scan's cache, and on a
 miss reads and parses the file and stores the result under the mtime it saw earlier.

 A finished task's outcome becomes an entry of the session list, which takes another stat.

 The only assumptions about the file system are that an edit gives a file an mtime it never
 had before and that a listing of the directory is atomic.  The code called on a file is
 arbitrary.
 */
module SessionCache {
  import opened Common

  type Path = string
  type Content = seq<int>
  type Data = seq<int>

  /**
   The code a scan calls: parsing by app version, where None is a parse that raised; whether a
   list entry can be built from parsed metadata; and the date that metadata or the file name gives.
   */
  datatype Code = Code(parse: (string, Content) -> Option<Data>, usable: (Path, Data) -> bool,
                       dated: (Path, Option<Data>) -> Option<string>)

  datatype FileVersion = Missing | Present(mtime: nat, content: Content)

  datatype Entry = Entry(mtime: nat, data: Data)
  type Cache = map<Path, Entry>

  datatype CacheFile = NoCacheFile | Corrupt | Stored(version: string, entries: Cache)

  /**
   One `_parse_one` task.  `since` is the position in the file's history at which it was
   stat'ed and `at` the position at which it was read; `hit` tells how it finished.
   */
  datatype Task =
    | Waiting
    | Statted(mtime: nat, since: nat)
    | Reading(mtime: nat, since: nat)
    | Parsed(mtime: nat, since: nat, at: nat, outcome: Option<Data>)
    | Finished(mtime: nat, since: nat, at: nat, hit: bool, outcome: Option<Data>)

  /** The date of a list entry: a known one, or as a last resort the file's own mtime. */
  datatype When = Known(date: string) | Modified(mtime: nat)

  /** What the session list shows for a file; a fallback knows no more than the file name and date. */
  datatype Listing = Omitted | Fallback(when: When) | Shown(data: Data, when: When)

  /** An entry of the list and the position in the file's history at which it was built. */
  datatype Built = Built(at: nat, listing: Listing)

  /**
   One `build_session_list` run; `loaded` remembers the cache as it came off the disk, `built`
   holds what the run has yielded.
   */
  datatype Scan = Scan(version: string, started: bool, loaded: Cache, cache: Cache, tasks: map<Path, Task>,
                       built: map<Path, Built>)

  datatype State = State(history: map<Path, seq<FileVersion>>, cacheFile: CacheFile, scans: map<nat, Scan>)

  /** What one task does next; Build is the consumer adding its entry to the list. */
  datatype Act = Stat | Lookup | Read | Store | Build

  datatype Step =
    | Edit(path: Path, version: FileVersion)
    | DamageCacheFile
    | List(id: nat, appVersion: string, files: set<Path>)
    | Load(id: nat)
    | Move(id: nat, path: Path, act: Act)
    | Save(id: nat)

  const INITIAL := State(map[], NoCacheFile, map[])

  function History(s: State, p: Path): seq<FileVersion> {
    if p in s.history then s.history[p] else [Missing]
  }

  function Latest(s: State, p: Path): FileVersion {
    var h := History(s, p);
    if h == [] then Missing else h[|h| - 1]
  }

  /** The mtime a stat reports: 0 stands for a stat that failed. */
  function Mtime(v: FileVersion): nat {
    if v.Missing? then 0 else v.mtime
  }

  /** What parsing this version of a file from scratch returns. */
  function ColdOutcome(code: Code, appVersion: string, v: FileVersion): Option<Data> {
    if v.Missing? then None else code.parse(appVersion, v.content)
  }

  function EntryDate(code: Code, p: Path, outcome: Option<Data>, v: FileVersion): When {
    var known := code.dated(p, outcome);
    if known.Some? then Known(known.value) else Modified(Mtime(v))
  }

  /** `_make_session_entry`: a stat of the file is part of building an entry from metadata. */
  function Display(code: Code, p: Path, outcome: Option<Data>, v: FileVersion): Listing {
    var when := EntryDate(code, p, outcome, v);
    match outcome
    case None => Fallback(when)
    case Some(data) => if v.Present? && code.usable(p, data) then Shown(data, when) else Omitted
  }

  predicate FreshMtime(h: seq<FileVersion>, m: nat) {
    m > 0 && forall i :: 0 <= i < |h| && h[i].Present? ==> h[i].mtime != m
  }

  predicate Hit(cache: Cache, p: Path, m: nat) {
    p in cache && cache[p].mtime == m
  }

  predicate AllBuilt(scan: Scan) {
    scan.started && forall p :: p in scan.tasks ==> scan.tasks[p].Finished? && p in scan.built
  }

  function LoadCache(file: CacheFile, appVersion: string): Cache {
    if file.Stored? && file.version == appVersion then file.entries else map[]
  }

  function Prune(cache: Cache, live: set<Path>): Cache {
    map p | p in cache && p in live :: cache[p]
  }

  /** The state after one step, or None where the step cannot happen. */
  function Next(code: Code, s: State, step: Step): Option<State> {
    match step
    case Edit(p, v) =>
      var h := History(s, p);
      if v.Present? && !FreshMtime(h, v.mtime) then None
      else Some(s.(history := s.history[p := h + [v]]))
    case DamageCacheFile =>
      Some(s.(cacheFile := Corrupt))
    case List(id, appVersion, files) =>
      if id in s.scans || exists p :: p in files && Latest(s, p).Missing? then None
      else
        var scan := Scan(appVersion, false, map[], map[], map p | p in files :: Waiting, map[]);
        Some(s.(scans := s.scans[id := scan]))
    case Load(id) =>
      if id !in s.scans || s.scans[id].started then None
      else
        var cache := LoadCache(s.cacheFile, s.scans[id].version);
        Some(s.(scans := s.scans[id := s.scans[id].(started := true, loaded := cache, cache := cache)]))
    case Move(id, p, act) =>
      if id !in s.scans || p !in s.scans[id].tasks || !s.scans[id].started then None
      else
        var moved := Moved(code, s.scans[id], History(s, p), p, act);
        if moved.None? then None else Some(s.(scans := s.scans[id := moved.value]))
    case Save(id) =>
      if id !in s.scans || !AllBuilt(s.scans[id]) then None
      else
        var scan := s.scans[id];
        Some(s.(cacheFile := Stored(scan.version, Prune(scan.cache, scan.tasks.Keys))))
  }

  /** The scan after one of its tasks, for a file with history h, did something. */
  function Moved(code: Code, scan: Scan, h: seq<FileVersion>, p: Path, act: Act): Option<Scan>
    requires p in scan.tasks
  {
    if h == [] then None
    else
      var now := |h| - 1;
      match (act, scan.tasks[p])
      case (Stat, Waiting) =>
        Some(scan.(tasks := scan.tasks[p := Statted(Mtime(h[now]), now)]))
      case (Lookup, Statted(m, since)) =>
        if Hit(scan.cache, p, m) then
          Some(scan.(tasks := scan.tasks[p := Finished(m, since, since, true, Some(scan.cache[p].data))]))
        else Some(scan.(tasks := scan.tasks[p := Reading(m, since)]))
      case (Read, Reading(m, since)) =>
        Some(scan.(tasks := scan.tasks[p := Parsed(m, since, now, ColdOutcome(code, scan.version, h[now]))]))
      case (Store, Parsed(m, since, at, outcome)) =>
        var cache := if outcome.Some? then scan.cache[p := Entry(m, outcome.value)] else scan.cache;
        Some(scan.(cache := cache, tasks := scan.tasks[p := Finished(m, since, at, false, outcome)]))
      case (Build, Finished(_, _, _, _, outcome)) =>
        if p in scan.built then None
        else Some(scan.(built := scan.built[p := Built(now, Display(code, p, outcome, h[now]))]))
      case _ => None
  }

  /** The state a run of steps leads to, if every step of it can happen. */
  function Run(code: Code, s: State, steps: seq<Step>): Option<State> {
    if steps == [] then Some(s)
    else
      match Run(code, s, steps[..|steps| - 1])
      case None => None
      case Some(s') => Next(code, s', steps[|steps| - 1])
  }

  // ---------------------------------------------------------------------
  // The invariant
  // ---------------------------------------------------------------------

  ghost predicate HistoryOk(h: seq<FileVersion>) {
    && h != []
    && (forall i :: 0 <= i < |h| && h[i].Present? ==> h[i].mtime > 0)
    && (forall i, j :: 0 <= i < j < |h| && h[i].Present? && h[j].Present? ==> h[i].mtime != h[j].mtime)
  }

  /** An entry under a real mtime is either right about the current file, or can never be hit again. */
  ghost predicate EntryOk(code: Code, h: seq<FileVersion>, appVersion: string, e: Entry) {
    e.mtime == 0 ||
    exists i ::
      && 0 <= i < |h| && h[i].Present? && h[i].mtime == e.mtime
      && (i == |h| - 1 ==> code.parse(appVersion, h[i].content) == Some(e.data))
  }

  predicate Untouched(scan: Scan, p: Path) {
    && (p in scan.cache <==> p in scan.loaded)
    && (p in scan.cache ==> scan.cache[p] == scan.loaded[p])
  }

  ghost predicate TaskOk(code: Code, h: seq<FileVersion>, scan: Scan, p: Path)
    requires p in scan.tasks
  {
    match scan.tasks[p]
    case Waiting => Untouched(scan, p)
    case Statted(m, since) =>
      && Untouched(scan, p) && since < |h| && m == Mtime(h[since])
      && (Hit(scan.loaded, p, m) && m != 0 ==>
            Some(scan.loaded[p].data) == ColdOutcome(code, scan.version, h[since]))
    case Reading(m, since) =>
      Untouched(scan, p) && since < |h| && m == Mtime(h[since]) && !Hit(scan.loaded, p, m)
    case Parsed(m, since, at, outcome) =>
      && Untouched(scan, p) && since <= at < |h| && m == Mtime(h[since]) && !Hit(scan.loaded, p, m)
      && outcome == ColdOutcome(code, scan.version, h[at])
    case Finished(m, since, at, hit, outcome) =>
      && since <= at < |h| && m == Mtime(h[since]) && hit == Hit(scan.loaded, p, m)
      && (hit ==> Untouched(scan, p) && outcome == Some(scan.loaded[p].data))
      && (!hit || m != 0 ==> outcome == ColdOutcome(code, scan.version, h[at]))
      && (hit ==> at == since)
      && (!hit ==> if outcome.Some? then p in scan.cache && scan.cache[p] == Entry(m, outcome.value)
                   else Untouched(scan, p))
  }

  /** A built entry displays its task's outcome with the file as it was when the entry was built. */
  ghost predicate BuiltOk(code: Code, h: seq<FileVersion>, scan: Scan, p: Path)
    requires p in scan.built
  {
    && p in scan.tasks && scan.tasks[p].Finished?
    && scan.tasks[p].at <= scan.built[p].at < |h|
    && scan.built[p].listing == Display(code, p, scan.tasks[p].outcome, h[scan.built[p].at])
  }

  /** Everything the scan knows about one file. */
  ghost predicate PathOk(code: Code, h: seq<FileVersion>, scan: Scan, p: Path) {
    && (p in scan.cache ==> EntryOk(code, h, scan.version, scan.cache[p]))
    && (p in scan.tasks ==> TaskOk(code, h, scan, p))
    && (p in scan.built ==> BuiltOk(code, h, scan, p))
    && (!scan.started ==> p !in scan.cache && p !in scan.loaded && (p in scan.tasks ==> scan.tasks[p].Waiting?))
  }

  ghost predicate ScanOk(code: Code, s: State, scan: Scan) {
    forall p :: PathOk(code, History(s, p), scan, p)
  }

  ghost predicate CacheFileOk(code: Code, s: State) {
    s.cacheFile.Stored? ==>
      forall p :: p in s.cacheFile.entries ==>
        EntryOk(code, History(s, p), s.cacheFile.version, s.cacheFile.entries[p])
  }

  ghost predicate Inv(code: Code, s: State) {
    && (forall p :: HistoryOk(History(s, p)))
    && CacheFileOk(code, s)
    && (forall id :: id in s.scans ==> ScanOk(code, s, s.scans[id]))
  }

  // Files change

  lemma EntryOkAfterEdit(code: Code, h: seq<FileVersion>, v: FileVersion, appVersion: string, e: Entry)
    requires EntryOk(code, h, appVersion, e)
    ensures EntryOk(code, h + [v], appVersion, e)
  {
    if e.mtime != 0 {
      var i :| && 0 <= i < |h| && h[i].Present? && h[i].mtime == e.mtime
               && (i == |h| - 1 ==> code.parse(appVersion, h[i].content) == Some(e.data));
      assert (h + [v])[i] == h[i];
    }
  }

  lemma PathOkAfterEdit(code: Code, h: seq<FileVersion>, v: FileVersion, scan: Scan, p: Path)
    requires PathOk(code, h, scan, p)
    ensures PathOk(code, h + [v], scan, p)
  {
    if p in scan.cache {
      EntryOkAfterEdit(code, h, v, scan.version, scan.cache[p]);
    }
  }

  lemma EditKeepsInv(code: Code, s: State, p: Path, v: FileVersion)
    requires Inv(code, s) && Next(code, s, Edit(p, v)).Some?
    ensures Inv(code, Next(code, s, Edit(p, v)).value)
  {
    var s' := Next(code, s, Edit(p, v)).value;
    var h := History(s, p);
    assert HistoryOk(h) && HistoryOk(h + [v]);
    hide PathOk, EntryOk, HistoryOk;
    assert forall q :: History(s', q) == if q == p then h + [v] else History(s, q);
    if s.cacheFile.Stored? && p in s.cacheFile.entries {
      EntryOkAfterEdit(code, h, v, s.cacheFile.version, s.cacheFile.entries[p]);
    }
    forall id | id in s'.scans
      ensures ScanOk(code, s', s'.scans[id])
    {
      assert ScanOk(code, s, s.scans[id]);
      assert PathOk(code, h, s.scans[id], p);
      PathOkAfterEdit(code, h, v, s.scans[id], p);
    }
  }

  // A scan starts

  lemma ListKeepsInv(code: Code, s: State, id: nat, appVersion: string, files: set<Path>)
    requires Inv(code, s) && Next(code, s, List(id, appVersion, files)).Some?
    ensures Inv(code, Next(code, s, List(id, appVersion, files)).value)
  {
    var s' := Next(code, s, List(id, appVersion, files)).value;
    assert ScanOk(code, s', s'.scans[id]);
    OtherScansKept(code, s, s', id);
  }

  lemma LoadKeepsInv(code: Code, s: State, id: nat)
    requires Inv(code, s) && Next(code, s, Load(id)).Some?
    ensures Inv(code, Next(code, s, Load(id)).value)
  {
    var s' := Next(code, s, Load(id)).value;
    forall p
      ensures PathOk(code, History(s', p), s'.scans[id], p)
    {
      assert PathOk(code, History(s, p), s.scans[id], p);
    }
    OtherScansKept(code, s, s', id);
  }

  // A task moves

  /** At the moment of the stat, a cached entry with that mtime is right. */
  lemma EntryRightWhenCurrent(code: Code, h: seq<FileVersion>, appVersion: string, e: Entry)
    requires HistoryOk(h)
    requires EntryOk(code, h, appVersion, e)
    requires e.mtime == Mtime(h[|h| - 1]) && e.mtime != 0
    ensures Some(e.data) == ColdOutcome(code, appVersion, h[|h| - 1])
  {}

  /** What a task stores is right, or belongs to an mtime that is already history. */
  lemma StoredEntryOk(code: Code, h: seq<FileVersion>, scan: Scan, p: Path)
    requires HistoryOk(h)
    requires p in scan.tasks && scan.tasks[p].Parsed? && scan.tasks[p].outcome.Some?
    requires TaskOk(code, h, scan, p)
    ensures EntryOk(code, h, scan.version, Entry(scan.tasks[p].mtime, scan.tasks[p].outcome.value))
  {}

  lemma MovedPathOk(code: Code, h: seq<FileVersion>, scan: Scan, p: Path, act: Act)
    requires HistoryOk(h) && PathOk(code, h, scan, p)
    requires p in scan.tasks && scan.started && Moved(code, scan, h, p, act).Some?
    ensures PathOk(code, h, Moved(code, scan, h, p, act).value, p)
  {
    if act == Stat && p in scan.cache && scan.cache[p].mtime == Mtime(h[|h| - 1]) != 0 {
      EntryRightWhenCurrent(code, h, scan.version, scan.cache[p]);
    }
    if act == Store && scan.tasks[p].outcome.Some? {
      StoredEntryOk(code, h, scan, p);
    }
  }

  /** The scan knows the same about a file before and after. */
  predicate SamePath(scan: Scan, scan': Scan, q: Path) {
    && (q in scan'.tasks <==> q in scan.tasks) && (q in scan.tasks ==> scan'.tasks[q] == scan.tasks[q])
    && (q in scan'.cache <==> q in scan.cache) && (q in scan.cache ==> scan'.cache[q] == scan.cache[q])
    && (q in scan'.built <==> q in scan.built) && (q in scan.built ==> scan'.built[q] == scan.built[q])
    && scan'.version == scan.version && scan'.started == scan.started && scan'.loaded == scan.loaded
  }

  lemma MovedElsewhere(code: Code, scan: Scan, h: seq<FileVersion>, p: Path, act: Act, q: Path)
    requires p in scan.tasks && Moved(code, scan, h, p, act).Some?
    ensures q != p ==> SamePath(scan, Moved(code, scan, h, p, act).value, q)
    ensures p in Moved(code, scan, h, p, act).value.tasks
    ensures Moved(code, scan, h, p, act).value.version == scan.version
  {}

  lemma SamePathOk(code: Code, h: seq<FileVersion>, scan: Scan, scan': Scan, q: Path)
    requires PathOk(code, h, scan, q) && SamePath(scan, scan', q)
    ensures PathOk(code, h, scan', q)
  {}

  lemma MoveKeepsInv(code: Code, s: State, id: nat, p: Path, act: Act)
    requires Inv(code, s) && Next(code, s, Move(id, p, act)).Some?
    ensures Inv(code, Next(code, s, Move(id, p, act)).value)
  {
    hide PathOk, SamePath, HistoryOk, Moved, CacheFileOk;
    var s' := Next(code, s, Move(id, p, act)).value;
    var scan, scan' := s.scans[id], s'.scans[id];
    assert ScanOk(code, s, scan);
    forall q
      ensures PathOk(code, History(s', q), scan', q)
    {
      assert PathOk(code, History(s, q), scan, q) && HistoryOk(History(s, q));
      if q == p {
        MovedPathOk(code, History(s, p), scan, p, act);
      } else {
        MovedElsewhere(code, scan, History(s, p), p, act, q);
        SamePathOk(code, History(s, q), scan, scan', q);
      }
    }
    SameCacheFileOk(code, s, s');
    OtherScansKept(code, s, s', id);
  }

  // The cache file changes

  lemma SaveKeepsInv(code: Code, s: State, id: nat)
    requires Inv(code, s) && Next(code, s, Save(id)).Some?
    ensures Inv(code, Next(code, s, Save(id)).value)
  {
    hide EntryOk, TaskOk, BuiltOk, HistoryOk;
    var s' := Next(code, s, Save(id)).value;
    forall p | p in s'.cacheFile.entries
      ensures EntryOk(code, History(s', p), s'.cacheFile.version, s'.cacheFile.entries[p])
    {
      assert PathOk(code, History(s, p), s.scans[id], p);
    }
    SameScansOk(code, s, s');
  }

  lemma DamageKeepsInv(code: Code, s: State)
    requires Inv(code, s)
    ensures Inv(code, Next(code, s, DamageCacheFile).value)
  {
    SameScansOk(code, s, s.(cacheFile := Corrupt));
  }

  // Any step

  lemma SameCacheFileOk(code: Code, s: State, s': State)
    requires CacheFileOk(code, s)
    requires s'.history == s.history && s'.cacheFile == s.cacheFile
    ensures CacheFileOk(code, s')
  {}

  lemma SameScansOk(code: Code, s: State, s': State)
    requires Inv(code, s)
    requires s'.history == s.history && s'.scans == s.scans
    ensures forall p :: HistoryOk(History(s', p))
    ensures forall id :: id in s'.scans ==> ScanOk(code, s', s'.scans[id])
  {
    hide PathOk, HistoryOk;
    assert forall p :: History(s', p) == History(s, p);
  }

  lemma OtherScansKept(code: Code, s: State, s': State, id: nat)
    requires Inv(code, s)
    requires s'.history == s.history
    requires forall other :: other in s'.scans && other != id ==> other in s.scans && s'.scans[other] == s.scans[other]
    ensures forall p :: HistoryOk(History(s', p))
    ensures forall other :: other in s'.scans && other != id ==> ScanOk(code, s', s'.scans[other])
  {
    hide PathOk, HistoryOk;
    assert forall p :: History(s', p) == History(s, p);
  }

  lemma StepKeepsInv(code: Code, s: State, step: Step)
    requires Inv(code, s)
    requires Next(code, s, step).Some?
    ensures Inv(code, Next(code, s, step).value)
  {
    hide Inv, Next;
    match step
    case Edit(p, v) => EditKeepsInv(code, s, p, v);
    case DamageCacheFile => DamageKeepsInv(code, s);
    case List(id, appVersion, files) => ListKeepsInv(code, s, id, appVersion, files);
    case Load(id) => LoadKeepsInv(code, s, id);
    case Move(id, p, act) => MoveKeepsInv(code, s, id, p, act);
    case Save(id) => SaveKeepsInv(code, s, id);
  }

  lemma {:induction false} RunKeepsInv(code: Code, s: State, steps: seq<Step>)
    requires Inv(code, s)
    requires Run(code, s, steps).Some?
    ensures Inv(code, Run(code, s, steps).value)
  {
    if steps == [] {
    } else {
      RunKeepsInv(code, s, steps[..|steps| - 1]);
      StepKeepsInv(code, Run(code, s, steps[..|steps| - 1]).value, steps[|steps| - 1]);
    }
  }

  // ---------------------------------------------------------------------
  // What every run guarantees
  // ---------------------------------------------------------------------

  ghost predicate Reachable(code: Code, s: State) {
    exists steps :: Run(code, INITIAL, steps) == Some(s)
  }

  lemma ReachableInv(code: Code, s: State)
    requires Reachable(code, s)
    ensures Inv(code, s)
  {
    var steps :| Run(code, INITIAL, steps) == Some(s);
    RunKeepsInv(code, INITIAL, steps);
  }

  lemma ReachableStep(code: Code, s: State, step: Step)
    requires Reachable(code, s)
    requires Next(code, s, step).Some?
    ensures Reachable(code, Next(code, s, step).value)
  {
    var steps :| Run(code, INITIAL, steps) == Some(s);
    assert (steps + [step])[..|steps|] == steps;
    assert Run(code, INITIAL, steps + [step]) == Next(code, s, step);
  }

  /**
   Under any interleaving, a cache hit reports what parsing the file as it was when stat'ed
   would report, exactly when that stat found a file.
   */
  lemma HitIsRightIffStatSucceeded(code: Code, s: State, id: nat, p: Path)
    requires Reachable(code, s)
    requires id in s.scans && p in s.scans[id].tasks
    requires s.scans[id].tasks[p].Finished? && s.scans[id].tasks[p].hit
    ensures var scan, t := s.scans[id], s.scans[id].tasks[p];
            && t.since < |History(s, p)|
            && (t.outcome == ColdOutcome(code, scan.version, History(s, p)[t.since])
                <==> History(s, p)[t.since].Present?)
  {
    ReachableInv(code, s);
    assert ScanOk(code, s, s.scans[id]);
    assert PathOk(code, History(s, p), s.scans[id], p);
    assert HistoryOk(History(s, p));
  }

  /**
   Every other outcome is that of a version the file really had between the task's stat and
   its end: the cache never brings back anything older.
   */
  lemma OutcomeIsNeverOlderThanItsStat(code: Code, s: State, id: nat, p: Path)
    requires Reachable(code, s)
    requires id in s.scans && p in s.scans[id].tasks && s.scans[id].tasks[p].Finished?
    ensures var scan, t, h := s.scans[id], s.scans[id].tasks[p], History(s, p);
            && t.since <= t.at < |h|
            && ((t.hit && h[t.since].Missing?) || t.outcome == ColdOutcome(code, scan.version, h[t.at]))
  {
    ReachableInv(code, s);
    assert ScanOk(code, s, s.scans[id]);
    assert PathOk(code, History(s, p), s.scans[id], p);
    assert HistoryOk(History(s, p));
  }

  /**
   An entry of the list displays an outcome the file had between its task's stat and end, with
   the date the file has when the entry is built, and again the failed stat is the one exception.
   */
  lemma ListedEntryIsFromItsWindow(code: Code, s: State, id: nat, p: Path)
    requires Reachable(code, s)
    requires id in s.scans && p in s.scans[id].built
    ensures p in s.scans[id].tasks && s.scans[id].tasks[p].Finished?
    ensures var scan, t, b, h := s.scans[id], s.scans[id].tasks[p], s.scans[id].built[p], History(s, p);
            && t.since <= t.at <= b.at < |h|
            && ((t.hit && h[t.since].Missing?)
                || b.listing == Display(code, p, ColdOutcome(code, scan.version, h[t.at]), h[b.at]))
  {
    ReachableInv(code, s);
    assert ScanOk(code, s, s.scans[id]);
    assert PathOk(code, History(s, p), s.scans[id], p);
    assert HistoryOk(History(s, p));
  }

  /**
   What the list shows for a file, in every run.  A parse that raised gives a fallback; metadata is
   shown exactly if the file was there when the entry was built and the metadata is usable, and
   otherwise the file is omitted.  The date is the known one, and only without one the mtime.
   */
  lemma WhatTheListShows(code: Code, s: State, id: nat, p: Path)
    requires Reachable(code, s)
    requires id in s.scans && p in s.scans[id].built
    ensures p in s.scans[id].tasks && s.scans[id].tasks[p].Finished? && s.scans[id].built[p].at < |History(s, p)|
    ensures var outcome, listing := s.scans[id].tasks[p].outcome, s.scans[id].built[p].listing;
            var now := History(s, p)[s.scans[id].built[p].at];
            && (outcome.None? <==> listing.Fallback?)
            && (listing.Shown? <==> outcome.Some? && now.Present? && code.usable(p, outcome.value))
            && (listing.Shown? ==> Some(listing.data) == outcome)
            && (!listing.Omitted? ==>
                  match code.dated(p, outcome)
                  case Some(date) => listing.when == Known(date)
                  case None => listing.when == Modified(if now.Present? then now.mtime else 0))
  {
    ReachableInv(code, s);
    assert ScanOk(code, s, s.scans[id]);
    assert PathOk(code, History(s, p), s.scans[id], p);
  }

  /**
   The exception is real: a file that is replaced while a scan looks at it, missing for its stat
   and back for its read, is cached under the failed stat's mtime.  Once it is deleted again, a
   task answers from that entry; the list then omits the file, where a cold scan shows a fallback.
   */
  lemma DeletedFileServedFromCache(code: Code, appVersion: string, p: Path, content: Content)
      returns (s: State)
    requires code.parse(appVersion, content).Some?
    ensures Reachable(code, s)
    ensures 1 in s.scans && p in s.scans[1].tasks && s.scans[1].version == appVersion
    ensures s.scans[1].tasks[p].Finished? && s.scans[1].tasks[p].outcome.Some?
    ensures Latest(s, p).Missing? && s.scans[1].tasks[p].since == |History(s, p)| - 1
    ensures p in s.scans[1].built && s.scans[1].built[p].listing == Omitted
    ensures Display(code, p, ColdOutcome(code, appVersion, Latest(s, p)), Latest(s, p)) ==
            Fallback(EntryDate(code, p, None, Missing))
  {
    s := HitAfterDeletion(code, appVersion, p, content);
    s := Then(code, s, Move(1, p, Build));
  }

  /**
   If the file comes back just before its entry is built, the list even shows the metadata of a
   version that had gone before the scan looked; where neither that metadata nor the file name
   has a date, beside the mtime of the new one.
   */
  lemma StaleMetadataListed(code: Code, appVersion: string, p: Path, content: Content, content': Content)
      returns (s: State)
    requires code.parse(appVersion, content).Some? && code.usable(p, code.parse(appVersion, content).value)
    ensures Reachable(code, s)
    ensures 1 in s.scans && p in s.scans[1].tasks && p in s.scans[1].built
    ensures var data := code.parse(appVersion, content).value;
            s.scans[1].built[p].listing == Shown(data, EntryDate(code, p, Some(data), Latest(s, p)))
    ensures Latest(s, p) == Present(3, content')
    ensures var t := s.scans[1].tasks[p];
            t.Finished? && t.since == |History(s, p)| - 2 && History(s, p)[t.since].Missing?
  {
    s := HitAfterDeletion(code, appVersion, p, content);
    s := Then(code, s, Edit(p, Present(3, content')));
    s := Then(code, s, Move(1, p, Build));
  }

  lemma HitAfterDeletion(code: Code, appVersion: string, p: Path, content: Content) returns (s: State)
    requires code.parse(appVersion, content).Some?
    ensures Reachable(code, s) && 1 in s.scans
    ensures History(s, p) == [Missing, Present(1, []), Missing, Present(2, content), Missing]
    ensures var scan := s.scans[1];
            && scan.version == appVersion && scan.started && scan.tasks.Keys == {p} && p !in scan.built
            && scan.tasks[p] == Finished(0, 4, 4, true, code.parse(appVersion, content))
  {
    s := EntryUnderFailedStat(code, appVersion, p, content);
    s := Then(code, s, List(1, appVersion, {p}));
    s := Then(code, s, Load(1));
    s := Then(code, s, Edit(p, Missing));
    s := Then(code, s, Move(1, p, Stat));
    s := Then(code, s, Move(1, p, Lookup));
  }

  lemma EntryUnderFailedStat(code: Code, appVersion: string, p: Path, content: Content)
      returns (s: State)
    requires code.parse(appVersion, content).Some?
    ensures Reachable(code, s) && 1 !in s.scans
    ensures History(s, p) == [Missing, Present(1, []), Missing, Present(2, content)]
    ensures s.cacheFile.Stored? && s.cacheFile.version == appVersion
    ensures p in s.cacheFile.entries
            && s.cacheFile.entries[p] == Entry(0, code.parse(appVersion, content).value)
  {
    s := ParsedAfterFailedStat(code, appVersion, p, content);
    s := Then(code, s, Move(0, p, Store));
    s := Then(code, s, Move(0, p, Build));
    s := Then(code, s, Save(0));
  }

  lemma ParsedAfterFailedStat(code: Code, appVersion: string, p: Path, content: Content)
      returns (s: State)
    requires code.parse(appVersion, content).Some?
    ensures Reachable(code, s) && s.scans.Keys == {0}
    ensures History(s, p) == [Missing, Present(1, []), Missing, Present(2, content)]
    ensures s.scans[0] == Scan(appVersion, true, map[], map[],
                               map[p := Parsed(0, 2, 3, code.parse(appVersion, content))], map[])
  {
    s := FailedStat(code, appVersion, p);
    s := Then(code, s, Edit(p, Present(2, content)));
    s := Then(code, s, Move(0, p, Lookup));
    s := Then(code, s, Move(0, p, Read));
  }

  /** A listed file is deleted before its task looks at it. */
  lemma FailedStat(code: Code, appVersion: string, p: Path) returns (s: State)
    ensures Reachable(code, s) && s.scans.Keys == {0}
    ensures History(s, p) == [Missing, Present(1, []), Missing]
    ensures s.scans[0] == Scan(appVersion, true, map[], map[], map[p := Statted(0, 2)], map[])
  {
    s := INITIAL;
    assert Run(code, INITIAL, []) == Some(s);
    s := Then(code, s, Edit(p, Present(1, [])));
    s := Then(code, s, List(0, appVersion, {p}));
    s := Then(code, s, Load(0));
    s := Then(code, s, Edit(p, Missing));
    s := Then(code, s, Move(0, p, Stat));
  }

  lemma Then(code: Code, s: State, step: Step) returns (s': State)
    requires Reachable(code, s)
    requires Next(code, s, step).Some?
    ensures Some(s') == Next(code, s, step) && Reachable(code, s')
  {
    s' := Next(code, s, step).value;
    ReachableStep(code, s, step);
  }

  // ---------------------------------------------------------------------
  // A scan during which nobody edits
  // ---------------------------------------------------------------------

  ghost predicate NoEdits(steps: seq<Step>) {
    forall i :: 0 <= i < |steps| ==> !steps[i].Edit?
  }

  /** Whatever the scan has seen of a file with history h is what the file is now. */
  ghost predicate SeenNow(h: seq<FileVersion>, scan: Scan, p: Path) {
    && (p in scan.tasks && !scan.tasks[p].Waiting? ==>
          && scan.tasks[p].since == |h| - 1
          && (scan.tasks[p].Parsed? || scan.tasks[p].Finished? ==> scan.tasks[p].at == |h| - 1))
    && (p in scan.built ==> scan.built[p].at == |h| - 1)
  }

  ghost predicate UpToDate(s: State, id: nat) {
    id in s.scans && forall p :: SeenNow(History(s, p), s.scans[id], p)
  }

  /** The scan is about the same files, at the same app version. */
  predicate SameFiles(scan: Scan, scan': Scan) {
    scan'.tasks.Keys == scan.tasks.Keys && scan'.version == scan.version
  }

  lemma MoveSeesNow(code: Code, scan: Scan, h: seq<FileVersion>, p: Path, act: Act)
    requires p in scan.tasks && Moved(code, scan, h, p, act).Some?
    requires SeenNow(h, scan, p)
    ensures SeenNow(h, Moved(code, scan, h, p, act).value, p)
    ensures SameFiles(scan, Moved(code, scan, h, p, act).value)
  {
    var scan' := Moved(code, scan, h, p, act).value;
    assert forall q :: q in scan'.tasks <==> q in scan.tasks;
  }

  lemma QuietMoveKeepsUpToDate(code: Code, s: State, id: nat, p: Path, act: Act)
    requires UpToDate(s, id) && Next(code, s, Move(id, p, act)).Some?
    ensures UpToDate(Next(code, s, Move(id, p, act)).value, id)
    ensures SameFiles(s.scans[id], Next(code, s, Move(id, p, act)).value.scans[id])
  {
    hide SeenNow, Moved, SameFiles;
    var s' := Next(code, s, Move(id, p, act)).value;
    var scan, scan', h := s.scans[id], s'.scans[id], History(s, p);
    MoveSeesNow(code, scan, h, p, act);
    forall q
      ensures SeenNow(History(s', q), scan', q)
    {
      assert SeenNow(History(s, q), scan, q);
      if q != p {
        MovedElsewhere(code, scan, h, p, act, q);
        SamePathSeen(History(s, q), scan, scan', q);
      }
    }
  }

  lemma SamePathSeen(h: seq<FileVersion>, scan: Scan, scan': Scan, q: Path)
    requires SeenNow(h, scan, q) && SamePath(scan, scan', q)
    ensures SeenNow(h, scan', q)
  {}

  lemma QuietStepKeepsUpToDate(code: Code, s: State, id: nat, step: Step)
    requires UpToDate(s, id) && !step.Edit?
    requires Next(code, s, step).Some?
    ensures var s' := Next(code, s, step).value;
            s'.history == s.history && UpToDate(s', id) && SameFiles(s.scans[id], s'.scans[id])
  {
    var s' := Next(code, s, step).value;
    hide Moved;
    assert forall p :: History(s', p) == History(s, p);
    if step.Move? && step.id == id {
      QuietMoveKeepsUpToDate(code, s, id, step.path, step.act);
    } else {
      forall p
        ensures SeenNow(History(s', p), s'.scans[id], p)
      {
        assert SeenNow(History(s, p), s.scans[id], p);
      }
    }
  }

  lemma {:induction false} QuietRunKeepsUpToDate(code: Code, s: State, id: nat, steps: seq<Step>)
    requires UpToDate(s, id) && NoEdits(steps)
    requires Run(code, s, steps).Some?
    ensures var s' := Run(code, s, steps).value;
            s'.history == s.history && UpToDate(s', id) && SameFiles(s.scans[id], s'.scans[id])
  {
    hide SeenNow, Next;
    if steps == [] {
    } else {
      QuietRunKeepsUpToDate(code, s, id, steps[..|steps| - 1]);
      QuietStepKeepsUpToDate(code, Run(code, s, steps[..|steps| - 1]).value, id, steps[|steps| - 1]);
    }
  }

  ghost predicate Fresh(s: State, id: nat) {
    id in s.scans && !s.scans[id].started && forall p :: p in s.scans[id].tasks ==> s.scans[id].tasks[p].Waiting?
  }

  /** A scan that ran from start to end, among any other scans, while no file was edited. */
  ghost predicate QuietScan(code: Code, s0: State, id: nat, steps: seq<Step>, s: State) {
    && Reachable(code, s0) && Fresh(s0, id)
    && NoEdits(steps) && Run(code, s0, steps) == Some(s)
    && id in s.scans && AllBuilt(s.scans[id])
  }

  ghost predicate ReportsCold(code: Code, s: State, id: nat)
    requires id in s.scans && AllBuilt(s.scans[id])
  {
    forall p :: p in s.scans[id].tasks ==>
      s.scans[id].tasks[p].outcome == ColdOutcome(code, s.scans[id].version, Latest(s, p))
  }

  /** The entry a cold scan would list for the file as it is now. */
  function ColdListing(code: Code, s: State, id: nat, p: Path): Listing
    requires id in s.scans
  {
    Display(code, p, ColdOutcome(code, s.scans[id].version, Latest(s, p)), Latest(s, p))
  }

  /** The list the scan yields, file by file, is that of a cold scan. */
  ghost predicate ListsCold(code: Code, s: State, id: nat)
    requires id in s.scans && AllBuilt(s.scans[id])
  {
    forall p :: p in s.scans[id].tasks ==> s.scans[id].built[p].listing == ColdListing(code, s, id, p)
  }

  lemma FreshIsUpToDate(code: Code, s: State, id: nat)
    requires Inv(code, s) && Fresh(s, id)
    ensures UpToDate(s, id)
  {
    forall p
      ensures SeenNow(History(s, p), s.scans[id], p)
    {
      assert ScanOk(code, s, s.scans[id]);
      assert PathOk(code, History(s, p), s.scans[id], p);
    }
  }

  lemma QuietScanFacts(code: Code, s0: State, id: nat, steps: seq<Step>, s: State)
    requires QuietScan(code, s0, id, steps, s)
    ensures Inv(code, s) && UpToDate(s, id)
    ensures s.history == s0.history && SameFiles(s0.scans[id], s.scans[id])
  {
    ReachableInv(code, s0);
    FreshIsUpToDate(code, s0, id);
    RunKeepsInv(code, s0, steps);
    QuietRunKeepsUpToDate(code, s0, id, steps);
  }

  /** What the invariant says of a finished task and its entry when nothing has changed since. */
  lemma QuietTaskFacts(code: Code, h: seq<FileVersion>, scan: Scan, p: Path)
    requires HistoryOk(h) && PathOk(code, h, scan, p) && SeenNow(h, scan, p)
    requires p in scan.tasks && scan.tasks[p].Finished? && p in scan.built
    ensures var t, now := scan.tasks[p], h[|h| - 1];
            && (t.outcome == ColdOutcome(code, scan.version, now) <==> (now.Missing? ==> !Hit(scan.loaded, p, 0)))
            && (scan.built[p].listing == Display(code, p, ColdOutcome(code, scan.version, now), now)
                <==> t.outcome == ColdOutcome(code, scan.version, now))
            && (now.Present? ==> (Hit(scan.cache, p, now.mtime) <==> ColdOutcome(code, scan.version, now).Some?))
  {
    var now := h[|h| - 1];
    if now.Present? && Hit(scan.cache, p, now.mtime) {
      EntryRightWhenCurrent(code, h, scan.version, scan.cache[p]);
    }
  }

  lemma QuietFileFacts(code: Code, s0: State, id: nat, steps: seq<Step>, s: State, p: Path)
    requires QuietScan(code, s0, id, steps, s) && p in s.scans[id].tasks
    ensures s.history == s0.history && SameFiles(s0.scans[id], s.scans[id])
    ensures var scan, h := s.scans[id], History(s, p);
            && HistoryOk(h) && PathOk(code, h, scan, p) && SeenNow(h, scan, p)
            && scan.tasks[p].Finished? && p in scan.built
            && Latest(s, p) == Latest(s0, p) == h[|h| - 1]
  {
    hide PathOk, SeenNow, Reachable, Run;
    QuietScanFacts(code, s0, id, steps, s);
    assert ScanOk(code, s, s.scans[id]);
    assert HistoryOk(History(s, p));
  }

  /**
   A warm scan equals a cold one.  From any reachable state, whatever other scans do and in
   whatever order the tasks complete, a scan during which no file is edited reports for every
   listed file what parsing it from scratch reports, exactly when no listed file that is gone
   has an entry under the failed-stat mtime in the cache the scan loaded.  The list it yields is
   that of a cold scan under exactly the same condition.
   */
  lemma WarmScanEqualsColdScan(code: Code, s0: State, id: nat, steps: seq<Step>, s: State)
    requires QuietScan(code, s0, id, steps, s)
    ensures s.history == s0.history && s.scans[id].tasks.Keys == s0.scans[id].tasks.Keys
    ensures ReportsCold(code, s, id) <==>
            forall p :: p in s.scans[id].tasks && Latest(s0, p).Missing? ==> !Hit(s.scans[id].loaded, p, 0)
    ensures ListsCold(code, s, id) <==> ReportsCold(code, s, id)
  {
    QuietScanFacts(code, s0, id, steps, s);
    var scan := s.scans[id];
    assert AllBuilt(scan);
    forall p | p in scan.tasks
      ensures scan.tasks[p].outcome == ColdOutcome(code, scan.version, Latest(s, p))
              <==> (Latest(s0, p).Missing? ==> !Hit(scan.loaded, p, 0))
      ensures scan.built[p].listing == ColdListing(code, s, id, p)
              <==> scan.tasks[p].outcome == ColdOutcome(code, scan.version, Latest(s, p))
    {
      hide QuietScan, PathOk, SeenNow, HistoryOk, ColdOutcome, Inv, UpToDate;
      QuietFileFacts(code, s0, id, steps, s, p);
      QuietTaskFacts(code, History(s, p), scan, p);
    }
  }

  /** When a scan can list, load and save: existing files only, once, and after every entry is built. */
  lemma ScanStepsNeed(code: Code, s: State, id: nat, appVersion: string, files: set<Path>)
    ensures Next(code, s, List(id, appVersion, files)).Some? <==>
              id !in s.scans && forall p :: p in files ==> History(s, p) != [] && Latest(s, p).Present?
    ensures Next(code, s, Load(id)).Some? <==> id in s.scans && !s.scans[id].started
    ensures Next(code, s, Save(id)).Some? <==>
              && id in s.scans && s.scans[id].started
              && forall p :: p in s.scans[id].tasks ==> s.scans[id].tasks[p].Finished? && p in s.scans[id].built
  {}

  /** A save writes the scan's version with the cached entries of the files it listed, and no others. */
  lemma SaveStoresListedEntries(code: Code, s: State, id: nat)
    requires Next(code, s, Save(id)).Some?
    ensures id in s.scans
    ensures var saved, scan := Next(code, s, Save(id)).value, s.scans[id];
            && saved.cacheFile.Stored? && saved.cacheFile.version == scan.version
            && (forall p :: p in saved.cacheFile.entries <==> p in scan.tasks && p in scan.cache)
            && (forall p :: p in saved.cacheFile.entries ==> saved.cacheFile.entries[p] == scan.cache[p])
            && saved.history == s.history && saved.scans == s.scans
  {}

  /** A load takes over the file's entries exactly when the version matches, and nothing otherwise. */
  lemma LoadIffVersionMatches(code: Code, s: State, id: nat)
    requires Next(code, s, Load(id)).Some?
    ensures id in s.scans && id in Next(code, s, Load(id)).value.scans
    ensures var scan', file := Next(code, s, Load(id)).value.scans[id], s.cacheFile;
            && scan'.cache == scan'.loaded
            && (forall p :: p in scan'.cache <==>
                  file.Stored? && file.version == s.scans[id].version && p in file.entries)
            && (forall p :: p in scan'.cache ==> scan'.cache[p] == file.entries[p])
  {}

  /**
   After such a scan saves, the next scan of the same version finds in the cache exactly those
   files that exist and parsed: only new, modified or unparseable files are read again.
   */
  lemma SavedScanLeavesOnlyFailuresToRead(code: Code, s0: State, id: nat, steps: seq<Step>, s: State,
                                          p: Path)
    requires QuietScan(code, s0, id, steps, s)
    requires p in s0.scans[id].tasks && Latest(s0, p).Present?
    ensures Next(code, s, Save(id)).Some?
    ensures var saved, v := Next(code, s, Save(id)).value, s.scans[id].version;
            Hit(LoadCache(saved.cacheFile, v), p, Latest(s0, p).mtime)
            <==> ColdOutcome(code, v, Latest(s0, p)).Some?
  {
    QuietScanFacts(code, s0, id, steps, s);
    hide PathOk, SeenNow, HistoryOk, ColdOutcome, Inv, UpToDate, Run, Reachable;
    QuietFileFacts(code, s0, id, steps, s, p);
    QuietTaskFacts(code, History(s, p), s.scans[id], p);
  }
}
