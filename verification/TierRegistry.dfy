/**
 The model tier registry with its 60-second cache. A resolve looks in the cache, reads the database
 if it must, and then stores what it read, so other resolves, registry writes and invalidations may
 come between its steps. The question is how old an answer can be.
 */
module TierRegistry {
  import opened Options

  const CACHE_TTL_MS: int := 60 * 1000

  datatype Tier = Premium | Standard | Budget

  datatype Source = Workspace | Team | Default

  datatype TierEntry = TierEntry(provider: string, model: string, source: Source,
                                 defaultEffort: Option<string>, defaultMaxTurns: Option<int>)

  datatype Row = Row(teamId: string, workspaceId: Option<string>, tier: Tier, provider: string, model: string,
                     defaultEffort: Option<string>, defaultMaxTurns: Option<int>)

  function TierDefault(tier: Tier): TierEntry
  {
    match tier
    case Premium => TierEntry("anthropic", "claude-opus-5", Default, None, None)
    case Standard => TierEntry("anthropic", "claude-sonnet-4-6", Default, None, None)
    case Budget => TierEntry("anthropic", "claude-haiku-4-5-20251001", Default, None, None)
  }

  /** Who asks: a team, possibly in a workspace. */
  datatype Scope = Scope(teamId: string, workspaceId: Option<string>)

  // ---------------------------------------------------------------- resolution without a cache

  /** The first row of the team and tier with the given workspace id. */
  function FindRow(rows: seq<Row>, tier: Tier, teamId: string, workspaceId: Option<string>): Option<Row>
  {
    if rows == [] then None
    else if rows[0].teamId == teamId && rows[0].tier == tier && rows[0].workspaceId == workspaceId then Some(rows[0])
    else FindRow(rows[1..], tier, teamId, workspaceId)
  }

  function EntryOf(row: Row, source: Source): TierEntry
  {
    TierEntry(row.provider, row.model, source,
              match row.defaultEffort case Some(e) => if e == "" then None else Some(e) case None => None,
              row.defaultMaxTurns)
  }

  /** The workspace's row if there is one, else the team's. */
  function Lookup(rows: seq<Row>, tier: Tier, scope: Scope): Option<TierEntry>
  {
    var workspaceRow := if scope.workspaceId.Some? && scope.workspaceId.value != ""
                        then FindRow(rows, tier, scope.teamId, scope.workspaceId) else None;
    var teamRow := FindRow(rows, tier, scope.teamId, None);
    if workspaceRow.Some? then Some(EntryOf(workspaceRow.value, Workspace))
    else if teamRow.Some? then Some(EntryOf(teamRow.value, Team))
    else None
  }

  function Uncached(rows: seq<Row>, tier: Tier, scope: Scope): TierEntry
  {
    var found := Lookup(rows, tier, scope);
    if found.Some? then found.value else TierDefault(tier)
  }

  // What a resolution gives, in terms of the rows.

  /** The row is the team's for the tier, for the given workspace, or for all of them. */
  ghost predicate IsFor(row: Row, tier: Tier, teamId: string, workspaceId: Option<string>)
  {
    row.teamId == teamId && row.tier == tier && row.workspaceId == workspaceId
  }

  ghost predicate HasRow(rows: seq<Row>, tier: Tier, teamId: string, workspaceId: Option<string>)
  {
    exists k :: 0 <= k < |rows| && IsFor(rows[k], tier, teamId, workspaceId)
  }

  ghost predicate FirstRow(rows: seq<Row>, k: nat, tier: Tier, teamId: string, workspaceId: Option<string>)
  {
    && k < |rows| && IsFor(rows[k], tier, teamId, workspaceId)
    && forall j :: 0 <= j < k ==> !IsFor(rows[j], tier, teamId, workspaceId)
  }

  lemma {:induction false} FindRowExactly(rows: seq<Row>, tier: Tier, teamId: string, workspaceId: Option<string>)
    returns (k: nat)
    ensures var found := FindRow(rows, tier, teamId, workspaceId);
            && (found.Some? <==> HasRow(rows, tier, teamId, workspaceId))
            && (found.Some? ==> FirstRow(rows, k, tier, teamId, workspaceId) && found == Some(rows[k]))
  {
    k := 0;
    if rows != [] {
      var n := FindRowExactly(rows[1..], tier, teamId, workspaceId);
      if IsFor(rows[0], tier, teamId, workspaceId) {
        assert HasRow(rows, tier, teamId, workspaceId);
      } else {
        k := n + 1;
        assert forall j :: 0 < j < |rows| ==> rows[j] == rows[1..][j - 1];
        if HasRow(rows, tier, teamId, workspaceId) {
          var j :| 0 <= j < |rows| && IsFor(rows[j], tier, teamId, workspaceId);
          assert IsFor(rows[1..][j - 1], tier, teamId, workspaceId);
        }
      }
    }
  }

  ghost predicate Named(scope: Scope)
  {
    scope.workspaceId.Some? && scope.workspaceId.value != ""
  }

  /** The entry says what the row says; an empty effort is none. */
  ghost predicate Repeats(entry: TierEntry, row: Row)
  {
    && entry.provider == row.provider && entry.model == row.model && entry.defaultMaxTurns == row.defaultMaxTurns
    && (entry.defaultEffort.Some? <==> row.defaultEffort.Some? && row.defaultEffort.value != "")
    && (entry.defaultEffort.Some? ==> entry.defaultEffort == row.defaultEffort)
  }

  /** What is answered when no row applies. */
  ghost predicate IsDefault(entry: TierEntry, tier: Tier)
  {
    && entry.provider == "anthropic" && entry.defaultEffort.None? && entry.defaultMaxTurns.None?
    && (tier == Premium ==> entry.model == "claude-opus-5")
    && (tier == Standard ==> entry.model == "claude-sonnet-4-6")
    && (tier == Budget ==> entry.model == "claude-haiku-4-5-20251001")
  }

  /**
   A named workspace's own row comes first, then the team's row, then the default; of several rows the first
   counts, and the entry repeats it.
   */
  lemma ResolvedExactly(rows: seq<Row>, tier: Tier, scope: Scope) returns (k: nat)
    ensures var entry, own := Uncached(rows, tier, scope),
                              Named(scope) && HasRow(rows, tier, scope.teamId, scope.workspaceId);
            && (entry.source == Workspace <==> own)
            && (entry.source == Team <==> !own && HasRow(rows, tier, scope.teamId, None))
            && (entry.source == Default ==> IsDefault(entry, tier))
            && (entry.source == Workspace ==> FirstRow(rows, k, tier, scope.teamId, scope.workspaceId))
            && (entry.source == Team ==> FirstRow(rows, k, tier, scope.teamId, None))
            && (entry.source != Default ==> Repeats(entry, rows[k]))
            && (entry.source != Default <==> Lookup(rows, tier, scope).Some?)
  {
    var own := FindRowExactly(rows, tier, scope.teamId, scope.workspaceId);
    k := FindRowExactly(rows, tier, scope.teamId, None);
    if Named(scope) && HasRow(rows, tier, scope.teamId, scope.workspaceId) { k := own; }
  }

  lemma {:induction false} FindRowWithout(
    a: seq<Row>, r: Row, b: seq<Row>, tier: Tier, teamId: string, workspaceId: Option<string>)
    requires r.teamId != teamId || r.tier != tier
    ensures FindRow(a + [r] + b, tier, teamId, workspaceId) == FindRow(a + b, tier, teamId, workspaceId)
  {
    if a == [] {
      assert ([r] + b)[1..] == b && [] + [r] + b == [r] + b && [] + b == b;
    } else {
      FindRowWithout(a[1..], r, b, tier, teamId, workspaceId);
      assert (a + [r] + b)[1..] == a[1..] + [r] + b && (a + b)[1..] == a[1..] + b;
    }
  }

  /** Rows of other teams and of other tiers make no difference, wherever they stand. */
  lemma OtherRowsDoNotMatter(a: seq<Row>, r: Row, b: seq<Row>, tier: Tier, scope: Scope)
    requires r.teamId != scope.teamId || r.tier != tier
    ensures Uncached(a + [r] + b, tier, scope) == Uncached(a + b, tier, scope)
  {
    FindRowWithout(a, r, b, tier, scope.teamId, scope.workspaceId);
    FindRowWithout(a, r, b, tier, scope.teamId, None);
  }

  // ---------------------------------------------------------------- the cache

  datatype CacheEntry = CacheEntry(entries: map<Tier, TierEntry>, loadedAt: int)

  type Cache = map<string, CacheEntry>

  function CacheKey(scope: Scope): string
  {
    scope.teamId + ":" + (if scope.workspaceId.Some? then scope.workspaceId.value else "null")
  }

  /** Ids as the database makes them: no colon in a team id, no workspace called null. */
  predicate ProperScope(scope: Scope)
  {
    ':' !in scope.teamId && scope.workspaceId != Some("null")
  }

  lemma LongerHasColon(a: string, restA: string, b: string, restB: string)
    requires a + ":" + restA == b + ":" + restB
    ensures |a| < |b| ==> ':' in b
    ensures |a| == |b| ==> a == b && restA == restB
  {
    var k := a + ":" + restA;
    assert b == k[..|b|] && k[|a|] == ':';
    assert a == k[..|a|] && restA == k[|a| + 1..] && restB == k[|b| + 1..];
  }

  lemma KeysAreDistinct(a: Scope, b: Scope)
    requires ProperScope(a) && ProperScope(b) && CacheKey(a) == CacheKey(b)
    ensures a == b
  {
    var restA := if a.workspaceId.Some? then a.workspaceId.value else "null";
    var restB := if b.workspaceId.Some? then b.workspaceId.value else "null";
    LongerHasColon(a.teamId, restA, b.teamId, restB);
    LongerHasColon(b.teamId, restB, a.teamId, restA);
  }

  /** The cached entry, when the key's load is younger than the window. */
  function Hit(cache: Cache, tier: Tier, key: string, now: int): Option<TierEntry>
  {
    if key in cache && now - cache[key].loadedAt < CACHE_TTL_MS && tier in cache[key].entries
    then Some(cache[key].entries[tier]) else None
  }

  function Store(cache: Cache, tier: Tier, key: string, now: int, entry: TierEntry): Cache
  {
    var slot := if key !in cache || now - cache[key].loadedAt >= CACHE_TTL_MS
                then CacheEntry(map[], now) else cache[key];
    cache[key := slot.(entries := slot.entries[tier := entry])]
  }

  /** Invalidation drops the team's own key, and the workspace's when one is named. */
  function Invalidated(cache: Cache, scope: Scope): Cache
  {
    var c := cache - {CacheKey(Scope(scope.teamId, None))};
    if scope.workspaceId.Some? && scope.workspaceId.value != "" then c - {CacheKey(scope)} else c
  }

  class TierCache {
    var cache: Cache

    constructor ()
      ensures cache == map[]
    {
      cache := map[];
    }

    /** The answer from the cache, if there is one. */
    method CheckCache(tier: Tier, scope: Scope, now: int) returns (entry: Option<TierEntry>)
      ensures entry == Hit(cache, tier, CacheKey(scope), now)
    {
      var key := CacheKey(scope);
      if key in cache && now - cache[key].loadedAt < CACHE_TTL_MS {
        if tier in cache[key].entries {
          return Some(cache[key].entries[tier]);
        }
      }
      return None;
    }

    /** What follows the database read; rows is None when the read failed, now is when the resolve began. */
    method UseRows(tier: Tier, scope: Scope, now: int, rows: Option<seq<Row>>) returns (entry: TierEntry)
      modifies this
      ensures entry == if rows.Some? then Uncached(rows.value, tier, scope) else TierDefault(tier)
      ensures cache == if rows.Some? && Lookup(rows.value, tier, scope).Some?
                       then Store(old(cache), tier, CacheKey(scope), now, entry) else old(cache)
    {
      var key := CacheKey(scope);
      if rows.Some? {
        var found := Lookup(rows.value, tier, scope);
        if found.Some? {
          entry := found.value;
          var cacheEntry;
          if key !in cache || now - cache[key].loadedAt >= CACHE_TTL_MS {
            cacheEntry := CacheEntry(map[], now);
          } else {
            cacheEntry := cache[key];
          }
          cacheEntry := cacheEntry.(entries := cacheEntry.entries[tier := entry]);
          cache := cache[key := cacheEntry];
          return;
        }
      }
      entry := TierDefault(tier);
    }

    method ResolveTierEntry(tier: Tier, scope: Scope, now: int, rows: Option<seq<Row>>) returns (entry: TierEntry)
      modifies this
      ensures var hit := Hit(old(cache), tier, CacheKey(scope), now);
              if hit.Some? then entry == hit.value && cache == old(cache)
              else
                && entry == (if rows.Some? then Uncached(rows.value, tier, scope) else TierDefault(tier))
                && cache == if rows.Some? && Lookup(rows.value, tier, scope).Some?
                            then Store(old(cache), tier, CacheKey(scope), now, entry) else old(cache)
    {
      var cached := CheckCache(tier, scope, now);
      if cached.Some? {
        return cached.value;
      }
      entry := UseRows(tier, scope, now, rows);
    }

    method InvalidateTierCache(scope: Scope)
      modifies this
      ensures cache == Invalidated(old(cache), scope)
    {
      cache := cache - {CacheKey(Scope(scope.teamId, None))};
      if scope.workspaceId.Some? && scope.workspaceId.value != "" {
        cache := cache - {CacheKey(scope)};
      }
    }
  }

  // ---------------------------------------------------------------- interleaved resolves

  /** A resolve that missed the cache: waiting for the database, or holding the rows it read. */
  datatype Flight = Flight(tier: Tier, scope: Scope, start: int, rows: Option<seq<Row>>)

  datatype Answer = Answer(tier: Tier, scope: Scope, entry: TierEntry)

  /** registry is the database table; answer is what the last step returned to its caller, if anything. */
  datatype World = World(cache: Cache, registry: seq<Row>, now: int, flights: seq<Flight>, answer: Option<Answer>)

  datatype Action =
    | Tick(ms: nat)
    | Write(rows: seq<Row>)
    | Invalidate(scope: Scope)
    | Ask(tier: Tier, asker: Scope)
    | Read(i: nat)
    | ReadFails(i: nat)
    | Finish(i: nat)

  ghost predicate Enabled(w: World, a: Action)
  {
    match a
    case Ask(_, asker) => ProperScope(asker)
    case Invalidate(scope) => ProperScope(scope)
    case Read(i) => i < |w.flights| && w.flights[i].rows.None?
    case ReadFails(i) => i < |w.flights| && w.flights[i].rows.None?
    case Finish(i) => i < |w.flights| && w.flights[i].rows.Some?
    case _ => true
  }

  ghost function Landed(flights: seq<Flight>, i: nat): seq<Flight>
    requires i < |flights|
  {
    flights[..i] + flights[i + 1..]
  }

  ghost function Step(w: World, a: Action): World
    requires Enabled(w, a)
  {
    match a
    case Tick(ms) => w.(now := w.now + ms, answer := None)
    case Write(rows) => w.(registry := rows, answer := None)
    case Invalidate(scope) => w.(cache := Invalidated(w.cache, scope), answer := None)
    case Ask(tier, asker) =>
      var hit := Hit(w.cache, tier, CacheKey(asker), w.now);
      if hit.Some? then w.(answer := Some(Answer(tier, asker, hit.value)))
      else w.(flights := w.flights + [Flight(tier, asker, w.now, None)], answer := None)
    case Read(i) => w.(flights := w.flights[i := w.flights[i].(rows := Some(w.registry))], answer := None)
    case ReadFails(i) => w.(flights := Landed(w.flights, i), answer := None)
    case Finish(i) =>
      var f := w.flights[i];
      var entry := Uncached(f.rows.value, f.tier, f.scope);
      w.(flights := Landed(w.flights, i),
         cache := if Lookup(f.rows.value, f.tier, f.scope).Some?
                  then Store(w.cache, f.tier, CacheKey(f.scope), f.start, entry) else w.cache,
         answer := Some(Answer(f.tier, f.scope, entry)))
  }

  ghost predicate IsRun(ws: seq<World>, actions: seq<Action>)
  {
    && |ws| == |actions| + 1 && ws[0].cache == map[] && ws[0].flights == [] && ws[0].answer == None
    && forall k :: 0 <= k < |actions| ==> Enabled(ws[k], actions[k]) && ws[k + 1] == Step(ws[k], actions[k])
  }

  /** No resolve takes longer than delay from its start to its end. */
  ghost predicate Prompt(ws: seq<World>, delay: nat)
  {
    forall k, f :: 0 <= k < |ws| && f in ws[k].flights ==> ws[k].now - f.start <= delay
  }

  /** The registry as it stood at moment j of the run gives entry. */
  ghost predicate Gives(ws: seq<World>, j: int, tier: Tier, scope: Scope, entry: TierEntry)
    requires 0 <= j < |ws|
  {
    entry == Uncached(ws[j].registry, tier, scope)
  }

  /** The registry gave entry at some moment between lo and hi of the run, no earlier than since. */
  ghost predicate Stood(ws: seq<World>, lo: int, hi: int, since: int, tier: Tier, scope: Scope, entry: TierEntry)
    requires 0 <= lo && hi < |ws|
  {
    exists j :: lo <= j <= hi && ws[j].now >= since && Gives(ws, j, tier, scope, entry)
  }

  /** A flight that has read resolves as the registry did at some moment between its start and now. */
  ghost predicate FlightOk(ws: seq<World>, lo: int, k: int, f: Flight)
    requires 0 <= lo && k < |ws|
  {
    && ProperScope(f.scope)
    && (f.rows.Some? ==> Stood(ws, lo, k, f.start, f.tier, f.scope, Uncached(f.rows.value, f.tier, f.scope)))
  }

  /** Every cached entry stood at a moment not much older than its slot's load. */
  ghost predicate CacheOk(ws: seq<World>, lo: int, k: int, delay: nat, scope: Scope)
    requires 0 <= lo && 0 <= k < |ws|
  {
    var key := CacheKey(scope);
    key in ws[k].cache ==>
      && ws[k].cache[key].loadedAt <= ws[k].now
      && forall tier :: tier in ws[k].cache[key].entries ==>
           Stood(ws, lo, k, ws[k].cache[key].loadedAt - delay, tier, scope, ws[k].cache[key].entries[tier])
  }

  ghost predicate Fine(ws: seq<World>, k: int, delay: nat)
    requires 0 <= k < |ws|
  {
    && (forall scope :: ProperScope(scope) ==> CacheOk(ws, 0, k, delay, scope))
    && (forall f :: f in ws[k].flights ==> FlightOk(ws, 0, k, f) && f.start <= ws[k].now)
  }

  lemma CacheOkGrows(ws: seq<World>, lo: int, k: int, delay: nat, scope: Scope)
    requires 0 <= lo && 0 <= k < |ws| - 1 && CacheOk(ws, lo, k, delay, scope)
    requires CacheKey(scope) in ws[k + 1].cache ==>
               CacheKey(scope) in ws[k].cache && ws[k + 1].cache[CacheKey(scope)] == ws[k].cache[CacheKey(scope)]
    requires ws[k].now <= ws[k + 1].now
    ensures CacheOk(ws, lo, k + 1, delay, scope)
  {
    var key := CacheKey(scope);
    if key in ws[k + 1].cache {
      var slot := ws[k].cache[key];
      forall tier | tier in slot.entries
        ensures Stood(ws, lo, k + 1, slot.loadedAt - delay, tier, scope, slot.entries[tier])
      {
      }
    }
  }

  lemma FlightOkGrows(ws: seq<World>, lo: int, k: int, f: Flight)
    requires 0 <= lo && 0 <= k < |ws| - 1 && FlightOk(ws, lo, k, f)
    ensures FlightOk(ws, lo, k + 1, f)
  {
    if f.rows.Some? {
      var entry := Uncached(f.rows.value, f.tier, f.scope);
      var j :| lo <= j <= k && ws[j].now >= f.start && Gives(ws, j, f.tier, f.scope, entry);
    }
  }

  /** Storing what a flight read keeps the cache sound, for the flight's key and for every other. */
  lemma FinishKeepsCache(ws: seq<World>, lo: int, k: int, i: nat, delay: nat, scope: Scope)
    requires 0 <= lo && 0 <= k < |ws| - 1 && ProperScope(scope)
    requires Enabled(ws[k], Finish(i)) && ws[k + 1] == Step(ws[k], Finish(i))
    requires CacheOk(ws, lo, k, delay, scope) && FlightOk(ws, 0, k, ws[k].flights[i])
    requires ws[k].flights[i].scope == scope ==> FlightOk(ws, lo, k, ws[k].flights[i])
    requires ws[k].flights[i].start <= ws[k].now <= ws[k].flights[i].start + delay
    ensures CacheOk(ws, lo, k + 1, delay, scope)
  {
    var f := ws[k].flights[i];
    var key := CacheKey(scope);
    if CacheKey(f.scope) != key || Lookup(f.rows.value, f.tier, f.scope).None? {
      CacheOkGrows(ws, lo, k, delay, scope);
    } else {
      KeysAreDistinct(scope, f.scope);
      var entry := Uncached(f.rows.value, f.tier, f.scope);
      var slot := ws[k + 1].cache[key];
      forall tier | tier in slot.entries
        ensures Stood(ws, lo, k + 1, slot.loadedAt - delay, tier, scope, slot.entries[tier])
      {
        if tier == f.tier {
          var j :| lo <= j <= k && ws[j].now >= f.start && Gives(ws, j, tier, scope, entry);
        }
      }
    }
  }

  lemma StepKeepsCache(ws: seq<World>, actions: seq<Action>, lo: int, k: int, delay: nat, scope: Scope)
    requires IsRun(ws, actions) && Prompt(ws, delay) && 0 <= lo && 0 <= k < |actions| && ProperScope(scope)
    requires CacheOk(ws, lo, k, delay, scope)
    requires forall f :: f in ws[k].flights ==> FlightOk(ws, 0, k, f) && f.start <= ws[k].now
    requires forall f :: f in ws[k].flights && f.scope == scope ==> FlightOk(ws, lo, k, f)
    ensures CacheOk(ws, lo, k + 1, delay, scope)
  {
    if actions[k].Finish? {
      assert ws[k].flights[actions[k].i] in ws[k].flights;
      FinishKeepsCache(ws, lo, k, actions[k].i, delay, scope);
    } else {
      CacheOkGrows(ws, lo, k, delay, scope);
    }
  }

  lemma StepKeepsFlight(ws: seq<World>, actions: seq<Action>, lo: int, k: int, f: Flight)
    requires IsRun(ws, actions) && 0 <= lo <= k < |actions| && f in ws[k + 1].flights
    requires forall g :: g in ws[k].flights ==> ProperScope(g.scope) && g.start <= ws[k].now
    requires forall g :: g in ws[k].flights && g.scope == f.scope ==> FlightOk(ws, lo, k, g)
    ensures FlightOk(ws, lo, k + 1, f) && f.start <= ws[k + 1].now
  {
    if f in ws[k].flights {
      FlightOkGrows(ws, lo, k, f);
    } else if actions[k].Read? {
      var g := ws[k].flights[actions[k].i];
      assert g in ws[k].flights;
      assert f == g.(rows := Some(ws[k].registry));
      assert ws[k].now >= f.start && Gives(ws, k, f.tier, f.scope, Uncached(f.rows.value, f.tier, f.scope));
    }
  }

  lemma CachesStayFine(ws: seq<World>, actions: seq<Action>, k: int, delay: nat)
    requires IsRun(ws, actions) && Prompt(ws, delay) && 0 <= k < |actions| && Fine(ws, k, delay)
    ensures forall scope :: ProperScope(scope) ==> CacheOk(ws, 0, k + 1, delay, scope)
  {
    forall scope | ProperScope(scope) ensures CacheOk(ws, 0, k + 1, delay, scope) {
      StepKeepsCache(ws, actions, 0, k, delay, scope);
    }
  }

  lemma {:induction false} RunIsFine(ws: seq<World>, actions: seq<Action>, k: int, delay: nat)
    requires IsRun(ws, actions) && Prompt(ws, delay) && 0 <= k <= |actions|
    ensures Fine(ws, k, delay)
  {
    if k > 0 {
      RunIsFine(ws, actions, k - 1, delay);
      CachesStayFine(ws, actions, k - 1, delay);
      forall f | f in ws[k].flights ensures FlightOk(ws, 0, k, f) && f.start <= ws[k].now {
        StepKeepsFlight(ws, actions, 0, k - 1, f);
      }
    }
  }

  /** The answer of a step stood, from lo on, at a moment less than the window plus the delay ago. */
  lemma AnswerStood(ws: seq<World>, actions: seq<Action>, lo: int, k: int, delay: nat, a: Answer)
    requires IsRun(ws, actions) && Prompt(ws, delay) && 0 <= lo && 0 <= k < |actions|
    requires ws[k + 1].answer == Some(a) && ProperScope(a.scope)
    requires CacheOk(ws, lo, k, delay, a.scope)
    requires forall f :: f in ws[k].flights && f.scope == a.scope ==> FlightOk(ws, lo, k, f)
    ensures Stood(ws, lo, k, ws[k].now - CACHE_TTL_MS - delay + 1, a.tier, a.scope, a.entry)
  {
    if actions[k].Finish? {
      var f := ws[k].flights[actions[k].i];
      assert f in ws[k].flights;
      var j :| lo <= j <= k && ws[j].now >= f.start && Gives(ws, j, a.tier, a.scope, a.entry);
    } else {
      var slot := ws[k].cache[CacheKey(a.scope)];
    }
  }

  /**
   Over all interleavings of resolves, registry writes and invalidations, every answer that does not
   come from a failed read is the uncached resolution of the registry as it stood at some moment less
   than 60 seconds plus the longest resolve ago.
   */
  lemma AnswersAreRecent(ws: seq<World>, actions: seq<Action>, k: int, delay: nat, a: Answer)
    requires IsRun(ws, actions) && Prompt(ws, delay) && 0 <= k < |actions| && ws[k + 1].answer == Some(a)
    ensures exists j :: 0 <= j <= k && ws[k].now - ws[j].now < 60 * 1000 + delay && Gives(ws, j, a.tier, a.scope, a.entry)
  {
    RunIsFine(ws, actions, k, delay);
    AnswerIsProper(ws, actions, k, delay, a);
    AnswerStood(ws, actions, 0, k, delay, a);
    var j :| 0 <= j <= k && ws[j].now >= ws[k].now - CACHE_TTL_MS - delay + 1 && Gives(ws, j, a.tier, a.scope, a.entry);
  }

  lemma AnswerIsProper(ws: seq<World>, actions: seq<Action>, k: int, delay: nat, a: Answer)
    requires IsRun(ws, actions) && 0 <= k < |actions| && ws[k + 1].answer == Some(a) && Fine(ws, k, delay)
    ensures ProperScope(a.scope)
  {
    if actions[k].Finish? {
      assert ws[k].flights[actions[k].i] in ws[k].flights;
    }
  }

  // ---------------------------------------------------------------- invalidation

  /** The scopes whose key an invalidation drops. */
  ghost predicate Drops(scope: Scope, target: Scope)
  {
    target == Scope(scope.teamId, None) ||
    (scope.workspaceId.Some? && scope.workspaceId.value != "" && target == scope)
  }

  /** From moment lo on, nothing older is cached for the scope or on its way into the cache. */
  ghost predicate FreshSince(ws: seq<World>, lo: int, k: int, delay: nat, scope: Scope)
    requires 0 <= lo && 0 <= k < |ws|
  {
    && CacheOk(ws, lo, k, delay, scope)
    && forall f :: f in ws[k].flights && f.scope == scope ==> FlightOk(ws, lo, k, f)
  }

  lemma {:induction false} StaysFresh(ws: seq<World>, actions: seq<Action>, m: int, k: int, delay: nat, scope: Scope)
    requires IsRun(ws, actions) && Prompt(ws, delay) && 0 <= m <= k <= |actions| && ProperScope(scope)
    requires FreshSince(ws, m, m, delay, scope)
    ensures FreshSince(ws, m, k, delay, scope)
  {
    if k > m {
      StaysFresh(ws, actions, m, k - 1, delay, scope);
      RunIsFine(ws, actions, k - 1, delay);
      StepKeepsCache(ws, actions, m, k - 1, delay, scope);
      forall f | f in ws[k].flights && f.scope == scope ensures FlightOk(ws, m, k, f) {
        StepKeepsFlight(ws, actions, m, k - 1, f);
      }
    }
  }

  /** Every resolve of the scope that has read, if it finished now, would answer as the registry does. */
  ghost predicate ReadsAgree(w: World, scope: Scope)
  {
    forall f :: f in w.flights && f.scope == scope && f.rows.Some? ==>
      Uncached(f.rows.value, f.tier, scope) == Uncached(w.registry, f.tier, scope)
  }

  /**
   After an invalidation of its key, when every resolve of the key holding rows agrees with the registry,
   every later answer for the key is the resolution of the registry as it stood at or after the invalidation.
   */
  lemma InvalidationIsFresh(ws: seq<World>, actions: seq<Action>, m: int, k: int, delay: nat, a: Answer)
    requires IsRun(ws, actions) && Prompt(ws, delay) && 0 <= m < k < |actions|
    requires actions[m].Invalidate? && Drops(actions[m].scope, a.scope) && ProperScope(a.scope)
    requires ReadsAgree(ws[m + 1], a.scope) && ws[k + 1].answer == Some(a)
    ensures exists j :: m < j <= k && Gives(ws, j, a.tier, a.scope, a.entry)
  {
    RunIsFine(ws, actions, m, delay);
    forall f | f in ws[m + 1].flights && f.scope == a.scope ensures FlightOk(ws, m + 1, m + 1, f) {
      assert f in ws[m].flights;
      assert f.rows.Some? ==> Gives(ws, m + 1, f.tier, f.scope, Uncached(f.rows.value, f.tier, f.scope));
    }
    assert FreshSince(ws, m + 1, m + 1, delay, a.scope);
    StaysFresh(ws, actions, m + 1, k, delay, a.scope);
    AnswerStood(ws, actions, m + 1, k, delay, a);
    var j :| m + 1 <= j <= k && ws[j].now >= ws[k].now - CACHE_TTL_MS - delay + 1 && Gives(ws, j, a.tier, a.scope, a.entry);
  }

  /** In every finite run some delay bounds all resolves. */
  lemma {:induction false} SomeDelay(ws: seq<World>, actions: seq<Action>, k: int)
    requires IsRun(ws, actions) && 0 <= k <= |actions|
    ensures ws[0].now <= ws[k].now
    ensures forall f :: f in ws[k].flights ==> ws[0].now <= f.start
  {
    if k > 0 {
      SomeDelay(ws, actions, k - 1);
      forall f | f in ws[k].flights ensures ws[0].now <= f.start {
        if f !in ws[k - 1].flights && actions[k - 1].Read? {
          var g := ws[k - 1].flights[actions[k - 1].i];
          assert g in ws[k - 1].flights && f.start == g.start;
        }
      }
    }
  }

  lemma {:induction false} ClockNeverBack(ws: seq<World>, actions: seq<Action>, j: int, k: int)
    requires IsRun(ws, actions) && 0 <= j <= k <= |actions|
    ensures ws[j].now <= ws[k].now
  {
    if j < k { ClockNeverBack(ws, actions, j, k - 1); }
  }

  lemma RunIsPrompt(ws: seq<World>, actions: seq<Action>) returns (delay: nat)
    requires IsRun(ws, actions)
    ensures Prompt(ws, delay)
  {
    SomeDelay(ws, actions, |actions|);
    delay := ws[|actions|].now - ws[0].now;
    forall k, f | 0 <= k < |ws| && f in ws[k].flights ensures ws[k].now - f.start <= delay {
      SomeDelay(ws, actions, k);
      ClockNeverBack(ws, actions, k, |actions|);
    }
  }

  /** Step k of a continuation answers for the scope with what the registry gives at or after moment m. */
  ghost predicate FreshAnswer(ws: seq<World>, m: int, k: int, scope: Scope)
    requires 0 <= m && 0 <= k < |ws| - 1
  {
    ws[k + 1].answer.Some? && ws[k + 1].answer.value.scope == scope ==>
      var a := ws[k + 1].answer.value;
      exists j :: m <= j <= k && Gives(ws, j, a.tier, scope, a.entry)
  }

  ghost predicate FreshAfter(ws: seq<World>, actions: seq<Action>, m: int, scope: Scope)
    requires IsRun(ws, actions) && 0 <= m
  {
    forall k :: m <= k < |actions| ==> FreshAnswer(ws, m, k, scope)
  }

  ghost predicate Continues(ws: seq<World>, actions: seq<Action>, ws': seq<World>, actions': seq<Action>)
  {
    IsRun(ws', actions') && ws <= ws' && actions <= actions'
  }

  lemma ContinuationIsFresh(ws: seq<World>, actions: seq<Action>, scope: Scope, ws': seq<World>, actions': seq<Action>)
    requires IsRun(ws, actions) && actions != [] && ProperScope(scope) && Continues(ws, actions, ws', actions')
    requires actions[|actions| - 1].Invalidate? && Drops(actions[|actions| - 1].scope, scope)
    requires ReadsAgree(ws[|actions|], scope)
    ensures FreshAfter(ws', actions', |actions|, scope)
  {
    var m := |actions| - 1;
    var delay := RunIsPrompt(ws', actions');
    assert ws'[m + 1] == ws[m + 1] && actions'[m] == actions[m];
    var n := |actions|;
    forall k | n <= k < |actions'| ensures FreshAnswer(ws', n, k, scope) {
      if ws'[k + 1].answer.Some? && ws'[k + 1].answer.value.scope == scope {
        InvalidationIsFresh(ws', actions', m, k, delay, ws'[k + 1].answer.value);
      }
    }
  }

  /** A resolve that disagrees with the registry answers at once with what the registry no longer gives. */
  lemma DisagreeingReadLands(ws: seq<World>, actions: seq<Action>, scope: Scope, i: nat)
    returns (ws': seq<World>, actions': seq<Action>)
    requires IsRun(ws, actions) && i < |ws[|actions|].flights|
    requires var f := ws[|actions|].flights[i];
             f.scope == scope && f.rows.Some? &&
             Uncached(f.rows.value, f.tier, scope) != Uncached(ws[|actions|].registry, f.tier, scope)
    ensures Continues(ws, actions, ws', actions') && !FreshAfter(ws', actions', |actions|, scope)
  {
    var w := ws[|actions|];
    ws', actions' := ws + [Step(w, Finish(i))], actions + [Finish(i)];
    RunGrows(ws, actions, Finish(i), Step(w, Finish(i)));
    assert !FreshAnswer(ws', |actions|, |actions|, scope);
  }

  /**
   Exactly when an invalidation makes its key fresh, whatever happens afterwards: when every resolve of the
   key that holds rows resolves as the registry does at that moment.
   */
  lemma InvalidationIsFreshExactly(ws: seq<World>, actions: seq<Action>, scope: Scope)
    requires IsRun(ws, actions) && actions != [] && ProperScope(scope)
    requires actions[|actions| - 1].Invalidate? && Drops(actions[|actions| - 1].scope, scope)
    ensures (forall ws', actions' :: Continues(ws, actions, ws', actions') ==>
               FreshAfter(ws', actions', |actions|, scope))
            <==> ReadsAgree(ws[|actions|], scope)
  {
    if ReadsAgree(ws[|actions|], scope) {
      forall ws', actions' | Continues(ws, actions, ws', actions')
        ensures FreshAfter(ws', actions', |actions|, scope)
      {
        ContinuationIsFresh(ws, actions, scope, ws', actions');
      }
    } else {
      var w := ws[|actions|];
      var f :| f in w.flights && f.scope == scope && f.rows.Some? &&
               Uncached(f.rows.value, f.tier, scope) != Uncached(w.registry, f.tier, scope);
      var i :| 0 <= i < |w.flights| && w.flights[i] == f;
      var ws', actions' := DisagreeingReadLands(ws, actions, scope, i);
    }
  }

  // ---------------------------------------------------------------- a write and its invalidation

  /** The registries differ at most in the row of one tier and scope. */
  ghost predicate WritesOnly(before: seq<Row>, after: seq<Row>, tier: Tier, target: Scope)
  {
    forall t, team, id :: t != tier || team != target.teamId || id != target.workspaceId ==>
      FindRow(after, t, team, id) == FindRow(before, t, team, id)
  }

  /** A resolve would be answered from the cache, and with what the registry does not give. */
  ghost predicate Stale(cache: Cache, rows: seq<Row>, tier: Tier, scope: Scope, now: int)
  {
    var hit := Hit(cache, tier, CacheKey(scope), now);
    hit.Some? && hit.value != Uncached(rows, tier, scope)
  }

  /** A workspace, or an empty id for one, that has no row of its own. */
  ghost predicate FallsBack(rows: seq<Row>, tier: Tier, scope: Scope)
  {
    scope.workspaceId.Some? &&
    (scope.workspaceId.value == "" || FindRow(rows, tier, scope.teamId, scope.workspaceId).None?)
  }

  lemma InvalidatedKeys(cache: Cache, target: Scope, scope: Scope, tier: Tier, now: int)
    requires ProperScope(target) && ProperScope(scope)
    ensures Hit(Invalidated(cache, target), tier, CacheKey(scope), now) ==
            if Drops(target, scope) then None else Hit(cache, tier, CacheKey(scope), now)
  {
    var team := Scope(target.teamId, None);
    if CacheKey(scope) == CacheKey(team) { KeysAreDistinct(scope, team); }
    if CacheKey(scope) == CacheKey(target) { KeysAreDistinct(scope, target); }
  }

  /** Falling back, a workspace resolves as its team does. */
  lemma FallsBackToTeam(rows: seq<Row>, tier: Tier, scope: Scope)
    requires FallsBack(rows, tier, scope)
    ensures Uncached(rows, tier, scope) == Uncached(rows, tier, Scope(scope.teamId, None))
  {
  }

  lemma WriteChanges(before: seq<Row>, after: seq<Row>, tier: Tier, target: Scope, t: Tier, scope: Scope)
    requires WritesOnly(before, after, tier, target) && scope != target && scope.workspaceId.Some?
    ensures FallsBack(after, t, scope) <==> FallsBack(before, t, scope)
    ensures Uncached(after, t, scope) != Uncached(before, t, scope) <==>
              t == tier && target == Scope(scope.teamId, None) && FallsBack(before, t, scope) &&
              Uncached(after, tier, target) != Uncached(before, tier, target)
  {
    if FallsBack(before, t, scope) {
      FallsBackToTeam(before, t, scope);
      FallsBackToTeam(after, t, scope);
    }
  }

  /**
   Exactly what a registry write with its invalidation leaves stale in a cache that was right before it:
   the workspaces, cached for that tier, that fall back to the team's row when it is the one written.
   */
  lemma StaleAfterWriteExactly(cache: Cache, now: int, before: seq<Row>, after: seq<Row>, tier: Tier, target: Scope,
                               t: Tier, scope: Scope)
    requires ProperScope(target) && ProperScope(scope) && target.workspaceId != Some("")
    requires WritesOnly(before, after, tier, target) && !Stale(cache, before, t, scope, now)
    ensures Stale(Invalidated(cache, target), after, t, scope, now) <==>
              && Hit(cache, t, CacheKey(scope), now).Some? && t == tier && target == Scope(scope.teamId, None)
              && FallsBack(before, tier, scope) && Uncached(after, tier, target) != Uncached(before, tier, target)
  {
    InvalidatedKeys(cache, target, scope, t, now);
    if scope.workspaceId.Some? && scope != target {
      WriteChanges(before, after, tier, target, t, scope);
    }
  }

  /** A cache holding one slot. */
  ghost function Only(scope: Scope, slot: CacheEntry): Cache
  {
    map[CacheKey(scope) := slot]
  }

  /** next follows w by action a. */
  ghost predicate Goes(w: World, a: Action, next: World)
  {
    Enabled(w, a) && next == Step(w, a)
  }

  lemma AskHits(w: World, tier: Tier, scope: Scope, entry: TierEntry)
    requires ProperScope(scope) && Hit(w.cache, tier, CacheKey(scope), w.now) == Some(entry)
    ensures Goes(w, Ask(tier, scope), w.(answer := Some(Answer(tier, scope, entry))))
  {
  }

  /** The last flight finishes with an entry. */
  lemma LastFinishes(w: World, before: seq<Flight>, f: Flight, cache: Cache)
    requires w.flights == before + [f] && f.rows.Some? && Lookup(f.rows.value, f.tier, f.scope).Some?
    requires cache == Store(w.cache, f.tier, CacheKey(f.scope), f.start, Uncached(f.rows.value, f.tier, f.scope))
    ensures Goes(w, Finish(|before|),
                 w.(flights := before, cache := cache,
                    answer := Some(Answer(f.tier, f.scope, Uncached(f.rows.value, f.tier, f.scope)))))
  {
    assert Landed(w.flights, |before|) == before;
  }

  lemma RunGrows(ws: seq<World>, actions: seq<Action>, a: Action, next: World)
    requires IsRun(ws, actions) && Goes(ws[|ws| - 1], a, next)
    ensures IsRun(ws + [next], actions + [a])
  {
  }

  /** The first three steps of a resolve that nothing interrupts, in an empty system. */
  lemma ResolveAlone(tier: Tier, scope: Scope, rows: seq<Row>) returns (ws: seq<World>, actions: seq<Action>)
    requires ProperScope(scope) && Lookup(rows, tier, scope).Some?
    ensures IsRun(ws, actions) && actions == [Ask(tier, scope), Read(0), Finish(0)]
    ensures var slot := CacheEntry(map[tier := Uncached(rows, tier, scope)], 0);
            ws[3] == World(Only(scope, slot), rows, 0, [], Some(Answer(tier, scope, Uncached(rows, tier, scope))))
  {
    var f := Flight(tier, scope, 0, None);
    var w0 := World(map[], rows, 0, [], None);
    var w1 := w0.(flights := [] + [f]);
    var w2 := w1.(flights := [] + [f.(rows := Some(rows))]);
    var slot := CacheEntry(map[tier := Uncached(rows, tier, scope)], 0);
    var w3 := World(Only(scope, slot), rows, 0, [], Some(Answer(tier, scope, Uncached(rows, tier, scope))));
    ws, actions := [w0], [];
    RunGrows(ws, actions, Ask(tier, scope), w1);
    ws, actions := ws + [w1], actions + [Ask(tier, scope)];
    RunGrows(ws, actions, Read(0), w2);
    ws, actions := ws + [w2], actions + [Read(0)];
    LastFinishes(w2, [], f.(rows := Some(rows)), Only(scope, slot));
    RunGrows(ws, actions, Finish(0), w3);
    ws, actions := ws + [w3], actions + [Finish(0)];
  }

  lemma OtherKeyStays(scope: Scope, target: Scope, slot: CacheEntry)
    requires ProperScope(scope) && ProperScope(target) && !Drops(target, scope)
    ensures Invalidated(Only(scope, slot), target) == Only(scope, slot)
  {
    var team := Scope(target.teamId, None);
    if CacheKey(scope) == CacheKey(team) { KeysAreDistinct(scope, team); }
    if CacheKey(scope) == CacheKey(target) { KeysAreDistinct(scope, target); }
  }

  /**
   A workspace without a row of its own is resolved, its team's row is written, and the team's key is
   invalidated as the write requires: the workspace is still answered with the old row.
   */
  lemma TeamWriteLeavesWorkspaceStale(tier: Tier, scope: Scope, before: seq<Row>, after: seq<Row>)
    returns (ws: seq<World>, actions: seq<Action>)
    requires ProperScope(scope) && Lookup(before, tier, scope).Some? && FallsBack(before, tier, scope)
    requires Uncached(after, tier, scope) != Uncached(before, tier, scope)
    ensures IsRun(ws, actions) && |actions| == 6
    ensures actions[3] == Write(after) && actions[4] == Invalidate(Scope(scope.teamId, None))
    ensures ws[6].answer == Some(Answer(tier, scope, Uncached(before, tier, scope))) && ws[6].registry == after
  {
    ws, actions := ResolveAlone(tier, scope, before);
    var w4 := ws[3].(registry := after, answer := None);
    RunGrows(ws, actions, Write(after), w4);
    ws, actions := ws + [w4], actions + [Write(after)];
    var team := Scope(scope.teamId, None);
    OtherKeyStays(scope, team, CacheEntry(map[tier := Uncached(before, tier, scope)], 0));
    RunGrows(ws, actions, Invalidate(team), w4);
    ws, actions := ws + [w4], actions + [Invalidate(team)];
    AskHits(w4, tier, scope, Uncached(before, tier, scope));
    var w6 := w4.(answer := Some(Answer(tier, scope, Uncached(before, tier, scope))));
    RunGrows(ws, actions, Ask(tier, scope), w6);
    ws, actions := ws + [w6], actions + [Ask(tier, scope)];
  }

  // ---------------------------------------------------------------- what interleaving costs

  /** A resolve reads, and then the registry is written: the first three steps of both stories. */
  lemma ReadThenWrite(tier: Tier, scope: Scope, before: seq<Row>, after: seq<Row>)
    returns (ws: seq<World>, actions: seq<Action>)
    requires ProperScope(scope)
    ensures IsRun(ws, actions) && actions == [Ask(tier, scope), Read(0), Write(after)]
    ensures ws[3] == World(map[], after, 0, [] + [Flight(tier, scope, 0, Some(before))], None)
    ensures forall k :: 0 <= k <= 3 ==> ws[k].now == 0 && forall f :: f in ws[k].flights ==> f.start == 0
  {
    var w0 := World(map[], before, 0, [], None);
    var f := Flight(tier, scope, 0, None);
    var w1 := w0.(flights := [] + [f]);
    var w2 := w1.(flights := [] + [f.(rows := Some(before))]);
    var w3 := w2.(registry := after);
    ws, actions := [w0], [];
    RunGrows(ws, actions, Ask(tier, scope), w1);
    ws, actions := ws + [w1], actions + [Ask(tier, scope)];
    RunGrows(ws, actions, Read(0), w2);
    ws, actions := ws + [w2], actions + [Read(0)];
    RunGrows(ws, actions, Write(after), w3);
    ws, actions := ws + [w3], actions + [Write(after)];
  }

  /** The read lands after the invalidation, and is then served. */
  lemma OldRowReturns(ws: seq<World>, actions: seq<Action>, tier: Tier, scope: Scope, before: seq<Row>, after: seq<Row>)
    returns (ws': seq<World>, actions': seq<Action>)
    requires IsRun(ws, actions) && ProperScope(scope) && Lookup(before, tier, scope).Some?
    requires ws[|actions|] == World(map[], after, 0, [] + [Flight(tier, scope, 0, Some(before))], None)
    ensures IsRun(ws', actions') && ws <= ws' && actions' == actions + [Finish(0), Ask(tier, scope)]
    ensures var w := ws'[|actions| + 1];
            ws'[|actions| + 2] == w && w.registry == after && w.now == 0 && w.flights == [] &&
            w.answer == Some(Answer(tier, scope, Uncached(before, tier, scope)))
  {
    var entry := Uncached(before, tier, scope);
    var slot := CacheEntry(map[tier := entry], 0);
    var w := World(Only(scope, slot), after, 0, [], Some(Answer(tier, scope, entry)));
    LastFinishes(ws[|actions|], [], Flight(tier, scope, 0, Some(before)), Only(scope, slot));
    RunGrows(ws, actions, Finish(0), w);
    AskHits(w, tier, scope, entry);
    RunGrows(ws + [w], actions + [Finish(0)], Ask(tier, scope), w);
    ws', actions' := ws + [w] + [w], actions + [Finish(0)] + [Ask(tier, scope)];
    assert actions' == actions + [Finish(0), Ask(tier, scope)];
  }

  /**
   A resolve that has read before a write and its invalidation puts the old row back into the cache.
   Whenever the write changes the resolution, the next answer is one the registry no longer gives.
   */
  lemma InvalidationRace(tier: Tier, scope: Scope, before: seq<Row>, after: seq<Row>)
    returns (ws: seq<World>, actions: seq<Action>)
    requires ProperScope(scope) && Lookup(before, tier, scope).Some?
    requires Uncached(after, tier, scope) != Uncached(before, tier, scope)
    ensures IsRun(ws, actions) && Prompt(ws, 0) && |actions| == 6 && actions[3] == Invalidate(scope)
    ensures ws[6].answer.Some? && ws[6].answer.value.tier == tier && ws[6].answer.value.scope == scope
    ensures forall j :: 3 < j <= 6 ==> !Gives(ws, j, tier, scope, ws[6].answer.value.entry)
  {
    ws, actions := ReadThenWrite(tier, scope, before, after);
    var w3 := ws[3];
    assert Invalidated(map[], scope) == map[];
    RunGrows(ws, actions, Invalidate(scope), w3);
    ws, actions := OldRowReturns(ws + [w3], actions + [Invalidate(scope)], tier, scope, before, after);
  }

  /** With a slow flight in the air, another tier of its key is resolved and cached. */
  lemma QuickLandsFirst(ws: seq<World>, actions: seq<Action>, d: nat, slow: Flight, other: Tier, after: seq<Row>)
    returns (ws': seq<World>, actions': seq<Action>)
    requires IsRun(ws, actions) && ws[|ws| - 1] == World(map[], after, d, [] + [slow], None)
    requires ProperScope(slow.scope) && Lookup(after, other, slow.scope).Some?
    ensures IsRun(ws', actions') && |actions'| == |actions| + 3 && ws'[..|ws|] == ws
    ensures forall j :: |ws| <= j < |ws'| ==> ws'[j].registry == after && ws'[j].now == d
    ensures forall j, f :: |ws| <= j < |ws'| && f in ws'[j].flights ==> f == slow || f.start == d
    ensures var newer := Uncached(after, other, slow.scope);
            ws'[|ws'| - 1] == World(Only(slow.scope, CacheEntry(map[other := newer], d)), after, d,
                                    [] + [slow], Some(Answer(other, slow.scope, newer)))
  {
    var scope, newer := slow.scope, Uncached(after, other, slow.scope);
    var quick := Flight(other, scope, d, None);
    var slot := CacheEntry(map[other := newer], d);
    var w4 := ws[|ws| - 1];
    var w5 := w4.(flights := [slow] + [quick]);
    var w6 := w4.(flights := [slow] + [quick.(rows := Some(after))]);
    LastFinishes(w6, [slow], quick.(rows := Some(after)), Only(scope, slot));
    var w7 := World(Only(scope, slot), after, d, [] + [slow], Some(Answer(other, scope, newer)));
    RunGrows(ws, actions, Ask(other, scope), w5);
    ws', actions' := ws + [w5], actions + [Ask(other, scope)];
    RunGrows(ws', actions', Read(1), w6);
    ws', actions' := ws' + [w6], actions' + [Read(1)];
    RunGrows(ws', actions', Finish(1), w7);
    ws', actions' := ws' + [w7], actions' + [Finish(1)];
  }

  /** From a slow flight in the air: another tier of the key is resolved, and only then the slow one. */
  lemma SlowLandsSecond(ws: seq<World>, actions: seq<Action>, d: nat, slow: Flight, other: Tier, after: seq<Row>)
    returns (ws': seq<World>, actions': seq<Action>)
    requires IsRun(ws, actions) && ws[|ws| - 1] == World(map[], after, d, [] + [slow], None)
    requires ProperScope(slow.scope) && slow.start == 0 && slow.rows.Some? && slow.tier != other
    requires Lookup(slow.rows.value, slow.tier, slow.scope).Some? && Lookup(after, other, slow.scope).Some?
    ensures IsRun(ws', actions') && |actions'| == |actions| + 4 && ws'[..|ws|] == ws
    ensures forall j :: |ws| <= j < |ws'| ==> ws'[j].registry == after && ws'[j].now == d
    ensures forall j, f :: |ws| <= j < |ws'| && f in ws'[j].flights ==> f == slow || f.start == d
    ensures var last := ws'[|ws'| - 1];
            && last.flights == []
            && Hit(last.cache, slow.tier, CacheKey(slow.scope), d + 59999) ==
               Some(Uncached(slow.rows.value, slow.tier, slow.scope))
  {
    var scope, stale := slow.scope, Uncached(slow.rows.value, slow.tier, slow.scope);
    var newer := Uncached(after, other, scope);
    var slot := CacheEntry(map[other := newer], d);
    var both := CacheEntry(map[other := newer][slow.tier := stale], d);
    ws', actions' := QuickLandsFirst(ws, actions, d, slow, other, after);
    LastFinishes(ws'[|ws'| - 1], [], slow, Only(scope, both));
    var w8 := World(Only(scope, both), after, d, [], Some(Answer(slow.tier, scope, stale)));
    RunGrows(ws', actions', Finish(0), w8);
    ws', actions' := ws' + [w8], actions' + [Finish(0)];
  }

  /**
   Any slowness outlives the window: a read that takes d, stored into a slot that another resolve has loaded
   meanwhile, is served when the registry has not given it for 60 seconds.
   */
  lemma SlowReadOutlivesWindow(d: nat, tier: Tier, other: Tier, scope: Scope, before: seq<Row>, after: seq<Row>)
    returns (ws: seq<World>, actions: seq<Action>)
    requires d > 0 && ProperScope(scope) && tier != other
    requires Lookup(before, tier, scope).Some? && Lookup(after, other, scope).Some?
    requires Uncached(after, tier, scope) != Uncached(before, tier, scope)
    ensures IsRun(ws, actions) && Prompt(ws, d) && |actions| == 10
    ensures ws[10].answer.Some? && ws[10].answer.value.tier == tier && ws[10].answer.value.scope == scope
    ensures forall j :: 0 <= j <= 10 && ws[9].now - ws[j].now < CACHE_TTL_MS ==>
              !Gives(ws, j, tier, scope, ws[10].answer.value.entry)
  {
    var slow := Flight(tier, scope, 0, Some(before));
    ws, actions := ReadThenWrite(tier, scope, before, after);
    var w4 := ws[3].(now := d);
    RunGrows(ws, actions, Tick(d), w4);
    ws, actions := ws + [w4], actions + [Tick(d)];
    ghost var first := ws;
    ws, actions := SlowLandsSecond(ws, actions, d, slow, other, after);
    assert forall j :: 0 <= j <= 3 ==> ws[j] == ws[..5][j] == first[j];
    var w9 := ws[8].(now := d + 59999, answer := None);
    RunGrows(ws, actions, Tick(59999), w9);
    ws, actions := ws + [w9], actions + [Tick(59999)];
    AskHits(w9, tier, scope, Uncached(before, tier, scope));
    var w10 := w9.(answer := Some(Answer(tier, scope, Uncached(before, tier, scope))));
    RunGrows(ws, actions, Ask(tier, scope), w10);
    ws, actions := ws + [w10], actions + [Ask(tier, scope)];
    assert ws[4] == first[4];
  }

  /** What step k answers is what the registry gave less than 60 seconds ago. */
  ghost predicate WithinWindow(ws: seq<World>, k: int)
    requires 0 <= k < |ws| - 1
  {
    ws[k + 1].answer.Some? ==>
      var a := ws[k + 1].answer.value;
      exists j :: 0 <= j <= k && ws[k].now - ws[j].now < 60 * 1000 && Gives(ws, j, a.tier, a.scope, a.entry)
  }

  /** The promise of the cache, over all runs whose resolves take at most delay. */
  ghost predicate WindowHolds(delay: nat)
  {
    forall ws, actions, k ::
      IsRun(ws, actions) && Prompt(ws, delay) && 0 <= k < |actions| ==> WithinWindow(ws, k)
  }

  /** Every answer is less than 60 seconds old exactly when resolves take no time at all. */
  lemma WindowHoldsExactly(delay: nat)
    ensures WindowHolds(delay) <==> delay == 0
  {
    if delay == 0 {
      forall ws: seq<World>, actions: seq<Action>, k: int |
        IsRun(ws, actions) && Prompt(ws, delay) && 0 <= k < |actions|
        ensures WithinWindow(ws, k)
      {
        if ws[k + 1].answer.Some? {
          AnswersAreRecent(ws, actions, k, 0, ws[k + 1].answer.value);
        }
      }
    } else {
      var premium := Row("t", None, Premium, "p", "a", None, None);
      var standard := Row("t", None, Standard, "p", "s", None, None);
      var before, after := [premium], [standard, premium.(model := "b")];
      var scope := Scope("t", None);
      assert FindRow(after, Premium, "t", None) == FindRow(after[1..], Premium, "t", None);
      assert FindRow(after[1..], Premium, "t", None) == Some(premium.(model := "b"));
      assert FindRow(before, Premium, "t", None) == Some(premium) && "a"[0] != "b"[0];
      var ws, actions := SlowReadOutlivesWindow(delay, Premium, Standard, scope, before, after);
      assert !WithinWindow(ws, 9);
    }
  }
}
