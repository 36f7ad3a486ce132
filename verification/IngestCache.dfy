/** The content-addressed ingest cache. An attempt that changes how memories are written looks for a cache directory
    named after a hash of everything the ingest is taken to depend on; a warm directory is copied out and answered
    from, a cold or partial one is moved aside and filled by a fresh ingest, which may fail at any point. A directory
    whose record file cannot be parsed ends the attempt before either. */
module IngestCache {
  import opened Sequences

  /** A JSON value by its canonical text. A missing setting reads as null. */
  datatype Value = Null | Json(text: string)

  type Settings = map<string, Value>

  function Get(s: Settings, key: string): Value {
    if key in s then s[key] else Null
  }

  const INGEST_KEYS: seq<string> := [
    "importInstructions", "maxExtractionTokens", "maxImportChunkChars", "recallProspectiveIndex", "recallSourceSpans",
    "lme2ProcedureNotes", "captureAxtreeMaxChars", "evidenceTimestamps", "memoryLearning", "personaLayer",
    "personaSnapshotChars"]

  /** The settings that change the ingested store. */
  function IngestView(s: Settings): seq<Value> {
    seq(|INGEST_KEYS|, i requires 0 <= i < |INGEST_KEYS| => Get(s, INGEST_KEYS[i]))
  }

  datatype EnvSpec = EnvSpec(envId: Value, content: string)

  datatype Attempt = Attempt(env: string, spec: EnvSpec, settings: Settings, model: string, capture: Value)

  datatype Payload = Payload(rev: string, envId: Value, imports: Value, view: seq<Value>, model: string)

  /** The canonical hash, on environment specifications and on cache-key payloads; 64 hexadecimal digits. */
  datatype Hash = Hash(rev: EnvSpec -> string, key: Payload -> string)

  const PREFIX_LENGTH := 16

  ghost predicate Wide(h: Hash) {
    forall p :: |h.key(p)| >= PREFIX_LENGTH
  }

  function PayloadOf(h: Hash, a: Attempt): Payload {
    Payload(h.rev(a.spec), a.spec.envId, Get(a.settings, "importInstructions"), IngestView(a.settings), a.model)
  }

  function Digits(h: Hash, a: Attempt): string {
    var key := h.key(PayloadOf(h, a));
    if |key| < PREFIX_LENGTH then key else key[..PREFIX_LENGTH]
  }

  function DirName(h: Hash, a: Attempt): string {
    a.env + "--" + Digits(h, a)
  }

  /** The directory is named after the environment and the first sixteen digits of the key. */
  lemma DirNameIs(h: Hash, a: Attempt)
    requires Wide(h)
    ensures |h.key(PayloadOf(h, a))| >= 16 && DirName(h, a) == a.env + "--" + h.key(PayloadOf(h, a))[..16]
  {
  }

  // ---------------------------------------------------------------- cache directories

  /** A line of env.jsonl: a row, or one that does not parse, such as a row cut short. */
  datatype Row = Row(env: string, error: bool) | Broken

  /** env.jsonl, and the store documents by environment. */
  datatype CacheDir = CacheDir(rows: seq<Row>, stores: map<string, string>)

  predicate Readable(d: CacheDir) { Broken !in d.rows }

  predicate Warm(d: CacheDir, env: string) {
    Readable(d) && (exists i :: 0 <= i < |d.rows| && d.rows[i] == Row(env, false)) && env in d.stores
  }

  /** Fails where a line does not parse. */
  method CacheState(d: CacheDir, env: string) returns (readable: bool, ingested: bool, hasStore: bool)
    ensures readable <==> Readable(d)
    ensures readable && ingested && hasStore <==> Warm(d, env)
  {
    readable, ingested, hasStore := true, false, env in d.stores;
    for i := 0 to |d.rows|
      invariant readable && Broken !in d.rows[..i]
      invariant ingested <==> exists k :: 0 <= k < i && d.rows[k] == Row(env, false)
    {
      assert d.rows[..i + 1] == d.rows[..i] + [d.rows[i]];
      if d.rows[i].Broken? { return false, false, false; }
      if d.rows[i].env == env && !d.rows[i].error {
        assert d.rows[i] == Row(env, false);
        ingested := true;
      }
    }
    assert d.rows[..|d.rows|] == d.rows;
  }

  // ---------------------------------------------------------------- attempts

  /** What the driver puts into a store. That it depends on nothing else is the driver's contract. */
  type Driver = (EnvSpec, seq<Value>, string, Value) -> string

  function Fresh(driver: Driver, a: Attempt): string {
    driver(a.spec, IngestView(a.settings), a.model, a.capture)
  }

  /** An attempt, and the directory that its driver leaves when it has to ingest: any, or none, when it fails. */
  datatype Round = Round(attempt: Attempt, left: Option<CacheDir>)

  /** The driver records a successful row only after writing the store. */
  ghost predicate Faithful(driver: Driver, d: CacheDir, a: Attempt) {
    Warm(d, a.env) ==> d.stores[a.env] == Fresh(driver, a)
  }

  type Cache = map<string, CacheDir>

  predicate Reuses(h: Hash, cache: Cache, a: Attempt) {
    DirName(h, a) in cache && Warm(cache[DirName(h, a)], a.env)
  }

  /** The attempt cannot even look at its directory. */
  predicate Blocked(h: Hash, cache: Cache, a: Attempt) {
    DirName(h, a) in cache && !Readable(cache[DirName(h, a)])
  }

  function Step(h: Hash, cache: Cache, round: Round): Cache {
    var name := DirName(h, round.attempt);
    if Reuses(h, cache, round.attempt) || Blocked(h, cache, round.attempt) then cache
    else
      var rest := cache - {name};
      if round.left.Some? then rest[name := round.left.value] else rest
  }

  class Controller {
    var cache: Cache
    const hash: Hash

    constructor (h: Hash)
      ensures cache == map[] && hash == h
    {
      cache, hash := map[], h;
    }

    /** One type-B attempt; the store it answers from, if it has one. */
    method RunTypeB(round: Round) returns (store: Option<string>)
      modifies this
      ensures cache == Step(hash, old(cache), round)
      ensures store == Served(hash, old(cache), round)
    {
      var a := round.attempt;
      var name := DirName(hash, a);
      if name in cache {
        var readable, ingested, hasStore := CacheState(cache[name], a.env);
        if !readable { return None; }
        if ingested && hasStore { return Some(cache[name].stores[a.env]); }
        cache := cache - {name};
      }
      if round.left.None? { return None; }
      cache := cache[name := round.left.value];
      var readable, ingested, hasStore := CacheState(cache[name], a.env);
      store := if readable && ingested && hasStore then Some(cache[name].stores[a.env]) else None;
    }
  }

  /** The store an attempt answers from: the cached one, or the one its own ingest completed. */
  function Served(h: Hash, cache: Cache, round: Round): Option<string> {
    var name, a := DirName(h, round.attempt), round.attempt;
    if Reuses(h, cache, a) then Some(cache[name].stores[a.env])
    else if !Blocked(h, cache, a) && round.left.Some? && Warm(round.left.value, a.env) then Some(round.left.value.stores[a.env])
    else None
  }

  function Run(h: Hash, rounds: seq<Round>): Cache {
    if |rounds| == 0 then map[] else Step(h, Run(h, rounds[..|rounds| - 1]), rounds[|rounds| - 1])
  }

  ghost predicate Legal(driver: Driver, rounds: seq<Round>) {
    forall i :: 0 <= i < |rounds| && rounds[i].left.Some? ==> Faithful(driver, rounds[i].left.value, rounds[i].attempt)
  }

  // ---------------------------------------------------------------- keys

  lemma NameSplits(h: Hash, a: Attempt, b: Attempt)
    requires Wide(h) && DirName(h, a) == DirName(h, b)
    ensures a.env == b.env && Digits(h, a) == Digits(h, b)
  {
    var x, y := DirName(h, a), DirName(h, b);
    assert |x| == |a.env| + 2 + PREFIX_LENGTH && |y| == |b.env| + 2 + PREFIX_LENGTH;
    assert x[..|a.env|] == a.env && y[..|b.env|] == b.env;
    assert x[|a.env| + 2..] == Digits(h, a) && y[|b.env| + 2..] == Digits(h, b);
  }

  /** The two attempts' hashes do not collide, on the sixteen digits that are used. */
  ghost predicate NoCollision(h: Hash, a: Attempt, b: Attempt) {
    && (h.rev(a.spec) == h.rev(b.spec) ==> a.spec == b.spec)
    && (Digits(h, a) == Digits(h, b) ==> PayloadOf(h, a) == PayloadOf(h, b))
  }

  /** What the key covers. */
  predicate SameKey(a: Attempt, b: Attempt) {
    a.env == b.env && a.spec == b.spec && IngestView(a.settings) == IngestView(b.settings) && a.model == b.model
  }

  /** Two attempts share a directory exactly when they agree on what the key covers. */
  lemma SameDirIff(h: Hash, a: Attempt, b: Attempt)
    requires Wide(h) && NoCollision(h, a, b)
    ensures DirName(h, a) == DirName(h, b) <==> SameKey(a, b)
  {
    if DirName(h, a) == DirName(h, b) { NameSplits(h, a, b); }
    if SameKey(a, b) {
      assert INGEST_KEYS[0] == "importInstructions";
      assert IngestView(a.settings)[0] == IngestView(b.settings)[0];
    }
  }

  /** Changing one setting moves an attempt to another directory exactly when it is one of these eleven, and the value is
      another one; a missing setting counts as null. */
  lemma SettingDecides(h: Hash, a: Attempt, k: string, v: Value)
    requires Wide(h) && NoCollision(h, a, a.(settings := a.settings[k := v]))
    ensures
      DirName(h, a) != DirName(h, a.(settings := a.settings[k := v])) <==>
        && Get(a.settings, k) != v
        && k in {"importInstructions", "maxExtractionTokens", "maxImportChunkChars", "recallProspectiveIndex", "recallSourceSpans",
                 "lme2ProcedureNotes", "captureAxtreeMaxChars", "evidenceTimestamps", "memoryLearning", "personaLayer",
                 "personaSnapshotChars"}
  {
    var b := a.(settings := a.settings[k := v]);
    SameDirIff(h, a, b);
    hide DirName, NoCollision, Wide;
    var x, y := IngestView(a.settings), IngestView(b.settings);
    if k in INGEST_KEYS {
      var i :| 0 <= i < |INGEST_KEYS| && INGEST_KEYS[i] == k;
      assert x[i] == Get(a.settings, k) && y[i] == v;
      if Get(a.settings, k) == v { forall j | 0 <= j < |INGEST_KEYS| ensures x[j] == y[j] {} }
    } else {
      forall j | 0 <= j < |INGEST_KEYS| ensures x[j] == y[j] { assert INGEST_KEYS[j] in INGEST_KEYS; }
    }
  }

  // ---------------------------------------------------------------- every history

  /** Every directory in the cache was left by the round given, whose attempt has that name. */
  ghost predicate FilledBy(h: Hash, rounds: seq<Round>, name: string, d: CacheDir, i: nat) {
    i < |rounds| && DirName(h, rounds[i].attempt) == name && rounds[i].left == Some(d)
  }

  lemma {:induction false} FilledByRound(h: Hash, rounds: seq<Round>, name: string) returns (i: nat)
    requires name in Run(h, rounds)
    ensures FilledBy(h, rounds, name, Run(h, rounds)[name], i)
  {
    var front, last := rounds[..|rounds| - 1], rounds[|rounds| - 1];
    var before := Run(h, front);
    if DirName(h, last.attempt) == name && !Reuses(h, before, last.attempt) && !Blocked(h, before, last.attempt) {
      i := |rounds| - 1;
    } else {
      i := FilledByRound(h, front, name);
      assert front[i] == rounds[i];
    }
  }

  /** Whenever a cached store is reused, after any history of attempts and driver failures, an earlier attempt with
      the same environment specification, ingest settings and model filled it, and it is the store that a fresh
      ingest under that attempt's capture protocol would produce. */
  lemma ReuseIsSound(h: Hash, driver: Driver, rounds: seq<Round>, b: Attempt) returns (i: nat)
    requires Wide(h) && Legal(driver, rounds) && Reuses(h, Run(h, rounds), b)
    requires forall k :: 0 <= k < |rounds| ==> NoCollision(h, rounds[k].attempt, b)
    ensures i < |rounds| && SameKey(rounds[i].attempt, b)
    ensures Run(h, rounds)[DirName(h, b)].stores[b.env] == Fresh(driver, b.(capture := rounds[i].attempt.capture))
  {
    i := FilledByRound(h, rounds, DirName(h, b));
    SameDirIff(h, rounds[i].attempt, b);
  }

  /** Whatever an attempt is served, from the cache or from its own ingest, is what a fresh ingest gives under the
      capture protocol of an attempt with the same key: an earlier one, or itself. */
  lemma ServedIsSound(h: Hash, driver: Driver, rounds: seq<Round>, round: Round) returns (i: nat)
    requires Wide(h) && Legal(driver, rounds + [round]) && Served(h, Run(h, rounds), round).Some?
    requires forall k :: 0 <= k < |rounds| ==> NoCollision(h, rounds[k].attempt, round.attempt)
    ensures i <= |rounds| && SameKey((rounds + [round])[i].attempt, round.attempt)
    ensures
      Served(h, Run(h, rounds), round).value
      == Fresh(driver, round.attempt.(capture := (rounds + [round])[i].attempt.capture))
  {
    var all := rounds + [round];
    assert forall k :: 0 <= k < |rounds| ==> all[k] == rounds[k];
    if Reuses(h, Run(h, rounds), round.attempt) {
      i := ReuseIsSound(h, driver, rounds, round.attempt);
    } else {
      i := |rounds|;
      assert all[i] == round;
    }
  }

  /** A failed ingest is never answered from: only a directory that a round left warm is reused. */
  lemma PartialIsNeverReused(h: Hash, rounds: seq<Round>, b: Attempt)
    requires Wide(h) && Reuses(h, Run(h, rounds), b)
    ensures exists i: nat, d :: FilledBy(h, rounds, DirName(h, b), d, i) && Warm(d, rounds[i].attempt.env)
  {
    var i := FilledByRound(h, rounds, DirName(h, b));
    NameSplits(h, rounds[i].attempt, b);
    assert FilledBy(h, rounds, DirName(h, b), Run(h, rounds)[DirName(h, b)], i);
  }

  // ---------------------------------------------------------------- records that do not parse

  lemma RunThen(h: Hash, rounds: seq<Round>, round: Round)
    ensures Run(h, rounds + [round]) == Step(h, Run(h, rounds), round)
  {
    assert (rounds + [round])[..|rounds|] == rounds;
  }

  lemma {:induction false} StaysBlocked(h: Hash, rounds: seq<Round>, more: seq<Round>, b: Attempt)
    requires Blocked(h, Run(h, rounds), b)
    ensures Blocked(h, Run(h, rounds + more), b)
  {
    if |more| == 0 {
      assert rounds + more == rounds;
    } else {
      var front, last := more[..|more| - 1], more[|more| - 1];
      StaysBlocked(h, rounds, front, b);
      assert rounds + more == (rounds + front) + [last];
      RunThen(h, rounds + front, last);
    }
  }

  /** Whatever is attempted later, and whatever its ingest would leave, the attempt is never served again. */
  ghost predicate Stuck(h: Hash, rounds: seq<Round>, b: Attempt) {
    forall more, left :: Served(h, Run(h, rounds + more), Round(b, left)).None?
  }

  /** A partial directory is to be moved aside so that the next attempt can ingest. After any history, the attempts on
      a directory are stuck for good exactly when its records do not parse. */
  lemma StuckIff(h: Hash, rounds: seq<Round>, b: Attempt)
    ensures Stuck(h, rounds, b) <==> Blocked(h, Run(h, rounds), b)
  {
    if Blocked(h, Run(h, rounds), b) {
      forall more, left ensures Served(h, Run(h, rounds + more), Round(b, left)).None? {
        StaysBlocked(h, rounds, more, b);
      }
    } else {
      var d := CacheDir([Row(b.env, false)], map[b.env := ""]);
      assert d.rows[0] == Row(b.env, false);
      assert rounds + [] == rounds;
      assert Served(h, Run(h, rounds + []), Round(b, Some(d))).Some?;
    }
  }

  // ---------------------------------------------------------------- the capture protocol

  /** The key leaves out the capture protocol, which the driver's store depends on. */
  ghost predicate ReuseEqualsFresh(h: Hash, a: Attempt, b: Attempt) {
    forall driver: Driver, d: CacheDir ::
      Faithful(driver, d, a) && Warm(d, a.env) ==> Served(h, Run(h, [Round(a, Some(d))]), Round(b, None)) == Some(Fresh(driver, b))
  }

  /** An attempt that finds the cache warm answers as after a fresh ingest, for every driver, exactly when the cache
      was filled under its own capture protocol. */
  lemma ReuseEqualsFreshIff(h: Hash, a: Attempt, b: Attempt)
    requires SameKey(a, b)
    ensures ReuseEqualsFresh(h, a, b) <==> a.capture == b.capture
  {
    SharesDir(h, a, b);
    forall driver: Driver, d: CacheDir | Faithful(driver, d, a) && Warm(d, a.env)
      ensures Served(h, Run(h, [Round(a, Some(d))]), Round(b, None)) == Some(Fresh(driver, a))
    {
      ServedAfter(h, a, b, d);
    }
    if a.capture != b.capture {
      var driver: Driver := (_, _, _, capture) => if capture == a.capture then "filled" else "fresh";
      var d := CacheDir([Row(a.env, false)], map[a.env := "filled"]);
      assert d.rows[0] == Row(a.env, false);
      assert Warm(d, a.env) && Faithful(driver, d, a);
      assert Fresh(driver, a) != Fresh(driver, b);
    }
  }

  lemma SharesDir(h: Hash, a: Attempt, b: Attempt)
    requires SameKey(a, b)
    ensures DirName(h, a) == DirName(h, b)
  {
    assert INGEST_KEYS[0] == "importInstructions";
    assert IngestView(a.settings)[0] == IngestView(b.settings)[0];
  }

  lemma ServedAfter(h: Hash, a: Attempt, b: Attempt, d: CacheDir)
    requires DirName(h, a) == DirName(h, b) && a.env == b.env && Warm(d, a.env)
    ensures Served(h, Run(h, [Round(a, Some(d))]), Round(b, None)) == Some(d.stores[a.env])
  {
    var rounds := [Round(a, Some(d))];
    assert rounds[..0] == [];
    assert Run(h, rounds) == Step(h, map[], rounds[0]);
  }

  // ---------------------------------------------------------------- settings

  const CONTROLLER_KEYS: set<string> :=
    {"skipIngest", "importRunRetries", "ingestTimeoutS", "importRunTimeoutS", "answerInstructionPlacement", "seed"}

  const READ_KEYS: set<string> := {
    "recallOn", "recallQueryDistillation", "recallRerank", "recallRerankCandidates", "recallRerankWithContent",
    "recallRerankContentChars", "recallQueryExtract", "recallQueryStemming", "recallQueryExpansion",
    "recallQueryExpansionDraws", "maxRecallChars", "maxRecallEntries", "answerInstruction", "answerMaxTokens",
    "answerThinkingLevel", "questionTimeoutS", "disableTools", "autoRefine", "recallFusion", "recallBm25", "lmev2SpanVerify"}

  /** merge_settings, without the check of single values; None for an unknown key. */
  function Merged(base: Settings, overrides: Settings): Option<Settings> {
    if exists k :: k in overrides && k !in INGEST_KEYS && k !in READ_KEYS && k !in CONTROLLER_KEYS then None
    else Some((base - {"__source_manifest__"}) + overrides)
  }

  function WithDefault(s: Settings, key: string, value: Value): Settings {
    if key in s then s else s[key := value]
  }

  datatype Mode = Auto | TypeA | TypeB

  /** pick_mode: None when the request is refused. */
  function PickMode(overrides: Settings, storeExists: bool, requested: Mode): Option<Mode> {
    var writes := exists k :: k in overrides && k in INGEST_KEYS;
    match requested
    case TypeA => if writes then None else Some(TypeA)
    case TypeB => Some(TypeB)
    case Auto => if writes then Some(TypeB) else if storeExists then Some(TypeA) else Some(TypeB)
  }

  /** The settings an attempt runs with: the merge, and the controller's defaults. */
  function Effective(base: Settings, overrides: Settings, mode: Mode): Option<Settings> {
    var merged := Merged(base, overrides);
    if merged.None? then None else Some(Defaulted(merged.value, mode))
  }

  function Defaulted(merged: Settings, mode: Mode): Settings {
    var s := WithDefault(WithDefault(merged, "memoryLearning", Json("false")), "disableTools", Json("true"));
    if mode == TypeB then WithDefault(s, "evidenceTimestamps", Json("true")) else s
  }

  /** The settings an attempt runs with, one by one: an override wins over the baseline, and a default stands where neither
      says anything. They are refused exactly when some override is unknown. */
  lemma EffectiveIs(base: Settings, overrides: Settings, mode: Mode, k: string)
    ensures
      Effective(base, overrides, mode).None?
      <==> exists o :: o in overrides && o !in INGEST_KEYS && o !in READ_KEYS && o !in CONTROLLER_KEYS
    ensures
      Effective(base, overrides, mode).Some? ==>
        var s := Effective(base, overrides, mode).value;
        && (k in overrides ==> k in s && s[k] == overrides[k])
        && (k !in overrides && k in base && k != "__source_manifest__" ==> k in s && s[k] == base[k])
        && (k !in overrides && (k !in base || k == "__source_manifest__") ==>
              match k
              case "memoryLearning" => k in s && s[k] == Json("false")
              case "disableTools" => k in s && s[k] == Json("true")
              case "evidenceTimestamps" => if mode == TypeB then k in s && s[k] == Json("true") else k !in s
              case _ => k !in s)
  {
    hide Defaulted;
    if Merged(base, overrides).Some? { DefaultsAre(Merged(base, overrides).value, mode, k); }
  }

  /** The controller's defaults stand only where nothing is set. */
  lemma DefaultsAre(merged: Settings, mode: Mode, k: string)
    ensures
      var s := Defaulted(merged, mode);
      if k in merged then k in s && s[k] == merged[k]
      else
        match k
        case "memoryLearning" => k in s && s[k] == Json("false")
        case "disableTools" => k in s && s[k] == Json("true")
        case "evidenceTimestamps" => if mode == TypeB then k in s && s[k] == Json("true") else k !in s
        case _ => k !in s
  {
  }

  /** The baseline store is answered from exactly when no write-time setting is overridden and it is asked for, or there
      is one and nothing else is asked for; asking for it with such an override is refused, and nothing else is. */
  lemma ModeIs(overrides: Settings, storeExists: bool, requested: Mode)
    ensures
      var writes, mode := exists k :: k in overrides && k in INGEST_KEYS, PickMode(overrides, storeExists, requested);
      && (mode == None <==> writes && requested == TypeA)
      && (mode == Some(TypeA) <==> !writes && (requested == TypeA || (requested == Auto && storeExists)))
      && mode != Some(Auto)
  {
  }

  lemma MergedView(base: Settings, overrides: Settings)
    requires Merged(base, overrides).Some? && forall k :: k in overrides ==> k !in INGEST_KEYS
    ensures forall k :: k in INGEST_KEYS ==> (k in Merged(base, overrides).value <==> k in base)
    ensures forall k :: k in INGEST_KEYS ==> Get(Merged(base, overrides).value, k) == Get(base, k)
  {
    assert "__source_manifest__" !in INGEST_KEYS;
  }

  lemma EffectiveView(base: Settings, overrides: Settings, mode: Mode)
    requires Merged(base, overrides).Some? && forall k :: k in overrides ==> k !in INGEST_KEYS
    ensures IngestView(Effective(base, overrides, mode).value) == IngestView(Effective(base, map[], mode).value)
  {
    hide Merged, Defaulted, Get;
    MergedView(base, overrides);
    NothingToMerge(base);
    var x, y := Effective(base, overrides, mode).value, Effective(base, map[], mode).value;
    forall i | 0 <= i < |INGEST_KEYS| ensures Get(x, INGEST_KEYS[i]) == Get(y, INGEST_KEYS[i]) {
      assert INGEST_KEYS[i] in INGEST_KEYS;
      DefaultsAgree(Merged(base, overrides).value, Merged(base, map[]).value, mode, INGEST_KEYS[i]);
    }
  }

  lemma DefaultsAgree(x: Settings, y: Settings, mode: Mode, k: string)
    requires (k in x <==> k in y) && Get(x, k) == Get(y, k)
    ensures Get(Defaulted(x, mode), k) == Get(Defaulted(y, mode), k)
  {
  }

  lemma NothingToMerge(base: Settings)
    ensures Merged(base, map[]).Some?
    ensures forall k :: k in INGEST_KEYS ==> (k in Merged(base, map[]).value <==> k in base)
    ensures forall k :: k in INGEST_KEYS ==> Get(Merged(base, map[]).value, k) == Get(base, k)
  {
    MergedView(base, map[]);
  }

  /** Overrides that touch read-time settings only never change the cache directory: every such experiment on one
      baseline shares one ingest. */
  lemma ReadTimeSettingsShareCache(h: Hash, a: Attempt, base: Settings, overrides: Settings)
    requires Merged(base, overrides).Some? && forall k :: k in overrides ==> k !in INGEST_KEYS
    ensures
      DirName(h, a.(settings := Effective(base, overrides, TypeB).value))
      == DirName(h, a.(settings := Effective(base, map[], TypeB).value))
  {
    EffectiveView(base, overrides, TypeB);
    SharesDir(h, a.(settings := Effective(base, overrides, TypeB).value), a.(settings := Effective(base, map[], TypeB).value));
  }

  /** An attempt that answers from the baseline store never runs with write-time settings other than the baseline's:
      whatever mode is asked for, such overrides are ingested for or refused. */
  lemma TypeAKeepsWriteSettings(base: Settings, overrides: Settings, storeExists: bool, requested: Mode)
    requires PickMode(overrides, storeExists, requested) == Some(TypeA) && Merged(base, overrides).Some?
    ensures IngestView(Effective(base, overrides, TypeA).value) == IngestView(Effective(base, map[], TypeA).value)
  {
    EffectiveView(base, overrides, TypeA);
  }
}
