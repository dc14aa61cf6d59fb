/** The app-wide store (StoreContext): the start-up load that publishes the
    offline cache and then reconciles it with the server, and the
    write-through persistence of every non-null value. Storage and the
    network are parameters: a cache slot is what `AsyncStorage.getItem`
    returned, already run through `JSON.parse`, and each remote call is the
    outcome it settles with. */
module Store {
  import opened Wrappers
  import opened Records
  import DateUtils
  import InsulinUtils

  /** A cache entry: missing (`null` or empty), or present and decoded,
      where `None` means `JSON.parse` threw. A stored text that decodes to
      `null` is `Absent`: it publishes `null`, as a missing entry does. */
  datatype Slot<+T> = Absent | Cached(decoded: Option<T>) {
    predicate Malformed() {
      Cached? && decoded.None?
    }

    /** The value to publish, `null` when missing. */
    function Published(): Option<T>
      requires !Malformed()
    {
      if Cached? then decoded else None
    }
  }

  datatype Cache = Cache(
    products: Slot<seq<Product>>,
    settings: Slot<Settings>,
    activeInsulin: Slot<ActiveInsulin>,
    glucose: Slot<Glucose>)

  /** What the four fetches of the sync resolve with. Every call in the
      `Promise.all` must succeed for the sync to go on. */
  datatype ServerData = ServerData(
    products: seq<Product>,
    settings: Settings,
    glucose: Option<Glucose>,
    activeInsulin: Option<ActiveInsulin>)

  datatype State = State(
    products: Option<seq<Product>>,
    settings: Option<Settings>,
    glucose: Option<Glucose>,
    activeInsulin: Option<ActiveInsulin>,
    accessEdit: bool,
    loading: bool)

  /** The provider's state before anything loads. */
  const Initial := State(None, None, None, None, true, true)

  datatype LoadOutcome = LoadOutcome(state: State, calls: seq<Call>)

  /** No cached value stands in the way of the sync. */
  predicate Readable(c: Cache) {
    !c.products.Malformed() && !c.settings.Malformed() && !c.activeInsulin.Malformed() && !c.glucose.Malformed()
  }

  /** The state after each present slot is published, in the order
      products, settings, active insulin, glucose, stopping at the first
      slot that does not decode. */
  function PublishCache(c: Cache, s: State): (r: State)
    ensures r.accessEdit == s.accessEdit && r.loading == s.loading
    ensures !c.products.Malformed() && c.products.Cached? ==> r.products == c.products.decoded
    ensures c.products.Absent? || c.products.Malformed() ==> r.products == s.products
    ensures Readable(c) ==> r == s.(
      products := if c.products.Cached? then c.products.decoded else s.products,
      settings := if c.settings.Cached? then c.settings.decoded else s.settings,
      activeInsulin := if c.activeInsulin.Cached? then c.activeInsulin.decoded else s.activeInsulin,
      glucose := if c.glucose.Cached? then c.glucose.decoded else s.glucose)
  {
    if c.products.Malformed() then s else
    var s1 := if c.products.Cached? then s.(products := c.products.decoded) else s;
    if c.settings.Malformed() then s1 else
    var s2 := if c.settings.Cached? then s1.(settings := c.settings.decoded) else s1;
    if c.activeInsulin.Malformed() then s2 else
    var s3 := if c.activeInsulin.Cached? then s2.(activeInsulin := c.activeInsulin.decoded) else s2;
    if c.glucose.Malformed() then s3 else
    if c.glucose.Cached? then s3.(glucose := c.glucose.decoded) else s3
  }

  /** The local `parseDate` of the store compared with `>`: a date whose
      fields are not numbers is `NaN` and compares false; `None` means
      one of the two calls threw. */
  function LaterThan(local: string, server: string): (r: Option<bool>)
    ensures r.None? <==> DateUtils.ParseDate(local).Throws? || DateUtils.ParseDate(server).Throws?
    ensures r == Some(true) <==>
      && DateUtils.ParseDate(local).Valid? && DateUtils.ParseDate(server).Valid?
      && InsulinUtils.ParsedInstant(DateUtils.ParseDate(local).civil) > InsulinUtils.ParsedInstant(DateUtils.ParseDate(server).civil)
  {
    var l := DateUtils.ParseDate(local);
    if l.Throws? then None else
    var s := DateUtils.ParseDate(server);
    if s.Throws? then None
    else if l.Valid? && s.Valid? then Some(InsulinUtils.ParsedInstant(l.civil) > InsulinUtils.ParsedInstant(s.civil))
    else Some(false)
  }

  /** The glucose the sync leaves: the enrichment result when the server
      glucose is present and `calculateGlucose` resolves, else the server
      value. */
  function EnrichedGlucose(server: Option<Glucose>, enriched: Result<Glucose, string>): (r: Option<Glucose>)
    ensures server.None? ==> r.None?
    ensures server.Some? && enriched.Success? ==> r == Some(enriched.value)
    ensures server.Some? && enriched.Failure? ==> r == server
  {
    match server
    case None => None
    case Some(g) => if enriched.Success? then Some(enriched.value) else server
  }

  /** The calls the enrichment adds: one `calculateGlucose` when the server
      glucose is present. */
  function EnrichCalls(server: Option<Glucose>): seq<Call> {
    if server.Some? then [CalculateGlucose(server.value)] else []
  }

  /** The active-insulin reconciliation of the sync, starting from the
      state the fetches left: the state and calls it produces. */
  function ReconcileInsulin(s: State, local: Option<ActiveInsulin>, server: Option<ActiveInsulin>, pushed: Ack): (r: LoadOutcome)
    ensures r.state.products == s.products && r.state.settings == s.settings && r.state.glucose == s.glucose
    ensures r.state.loading == s.loading
  {
    if local.Some? && server.Some? then
      match LaterThan(local.value.date, server.value.date)
      case None => LoadOutcome(s.(accessEdit := false), [])
      case Some(true) =>
        if pushed.Success? then LoadOutcome(s.(activeInsulin := local, accessEdit := true), [UpdateActiveInsulin(local.value)])
        else LoadOutcome(s.(accessEdit := false), [UpdateActiveInsulin(local.value)])
      case Some(false) => LoadOutcome(s.(activeInsulin := server, accessEdit := true), [])
    else if server.Some? then LoadOutcome(s.(activeInsulin := server, accessEdit := true), [])
    else LoadOutcome(s.(accessEdit := true), [])
  }

  /** `loadData`: publish the cache, then fetch everything and reconcile;
      every path ends with loading done. */
  function LoadData(c: Cache, fetched: Result<ServerData, string>, enriched: Result<Glucose, string>, pushed: Ack): (r: LoadOutcome)
    ensures !r.state.loading
  {
    var cached := PublishCache(c, Initial);
    if !Readable(c) then
      LoadOutcome(cached.(accessEdit := false, loading := false), [])
    else
      match fetched
      case Failure(_) => LoadOutcome(cached.(accessEdit := false, loading := false), [FetchAll])
      case Success(sd) =>
        var synced := cached.(products := Some(sd.products), settings := Some(sd.settings),
          glucose := EnrichedGlucose(sd.glucose, enriched));
        var rec := ReconcileInsulin(synced, c.activeInsulin.Published(), sd.activeInsulin, pushed);
        LoadOutcome(rec.state.(loading := false), [FetchAll] + EnrichCalls(sd.glucose) + rec.calls)
  }

  /** A cache slot after the persistence effect ran for `v`: written when
      `v` is non-null, otherwise left as it was. */
  function Persisted<T>(slot: Slot<T>, v: Option<T>): (r: Slot<T>)
    ensures v.Some? ==> r == Cached(Some(v.value))
    ensures v.None? ==> r == slot
  {
    if v.Some? then Cached(Some(v.value)) else slot
  }

  /** The four persistence effects: every non-null value is written back,
      and nothing is ever cleared. */
  function Persist(s: State, c: Cache): (r: Cache)
    ensures c.products.Cached? ==> r.products.Cached?
    ensures c.settings.Cached? ==> r.settings.Cached?
    ensures c.activeInsulin.Cached? ==> r.activeInsulin.Cached?
    ensures c.glucose.Cached? ==> r.glucose.Cached?
    ensures Readable(c) ==> Readable(r)
  {
    Cache(Persisted(c.products, s.products), Persisted(c.settings, s.settings),
      Persisted(c.activeInsulin, s.activeInsulin), Persisted(c.glucose, s.glucose))
  }

  /** Offline start: every present slot is published as cached, nothing
      else happens, and the app is marked unreachable. */
  lemma OfflineStartPublishesCache(c: Cache, err: string, enriched: Result<Glucose, string>, pushed: Ack)
    requires Readable(c)
    ensures var r := LoadData(c, Failure(err), enriched, pushed);
      && r.state == State(c.products.Published(), c.settings.Published(), c.glucose.Published(),
           c.activeInsulin.Published(), false, false)
      && r.calls == [FetchAll]
  {
  }

  /** A cached value that does not decode stops the load there: the sync is
      skipped, the app is unreachable, and the slots before it stay
      published. */
  lemma MalformedSlotSkipsSync(c: Cache, fetched: Result<ServerData, string>, enriched: Result<Glucose, string>, pushed: Ack)
    requires !Readable(c)
    ensures var r := LoadData(c, fetched, enriched, pushed);
      && r.calls == [] && !r.state.accessEdit && !r.state.loading
      && (c.products.Malformed() ==> r.state == State(None, None, None, None, false, false))
      && (!c.products.Malformed() ==> r.state.products == c.products.Published())
  {
  }

  /** After a successful fetch, products, settings and glucose hold the
      server values whatever happens to active insulin, and the calls start
      with the fetch and the enrichment. */
  lemma SyncOverwrites(c: Cache, sd: ServerData, enriched: Result<Glucose, string>, pushed: Ack)
    requires Readable(c)
    ensures var r := LoadData(c, Success(sd), enriched, pushed);
      && r.state.products == Some(sd.products)
      && r.state.settings == Some(sd.settings)
      && r.state.glucose == EnrichedGlucose(sd.glucose, enriched)
      && r.calls[..1 + |EnrichCalls(sd.glucose)|] == [FetchAll] + EnrichCalls(sd.glucose)
  {
  }

  /** A cached dose later than the server's is pushed and kept; the app is
      reachable exactly when the push succeeds. */
  lemma LocalNewerIsPushed(c: Cache, local: ActiveInsulin, sd: ServerData, enriched: Result<Glucose, string>, pushed: Ack)
    requires Readable(c) && c.activeInsulin == Cached(Some(local)) && sd.activeInsulin.Some?
    requires LaterThan(local.date, sd.activeInsulin.value.date) == Some(true)
    ensures var r := LoadData(c, Success(sd), enriched, pushed);
      && r.state.activeInsulin == Some(local)
      && r.calls == [FetchAll] + EnrichCalls(sd.glucose) + [UpdateActiveInsulin(local)]
      && (r.state.accessEdit <==> pushed.Success?)
  {
  }

  /** Otherwise, with both records present and both dates splittable, the
      server's dose is published and nothing is pushed. */
  lemma ServerNotOlderWins(c: Cache, local: ActiveInsulin, sd: ServerData, enriched: Result<Glucose, string>, pushed: Ack)
    requires Readable(c) && c.activeInsulin == Cached(Some(local)) && sd.activeInsulin.Some?
    requires LaterThan(local.date, sd.activeInsulin.value.date) == Some(false)
    ensures var r := LoadData(c, Success(sd), enriched, pushed);
      && r.state.activeInsulin == sd.activeInsulin
      && r.calls == [FetchAll] + EnrichCalls(sd.glucose)
      && r.state.accessEdit
  {
  }

  /** With no cached dose the server's is published when there is one, and
      active insulin stays null when neither exists. */
  lemma NoLocalDose(c: Cache, sd: ServerData, enriched: Result<Glucose, string>, pushed: Ack)
    requires Readable(c) && c.activeInsulin.Absent?
    ensures var r := LoadData(c, Success(sd), enriched, pushed);
      && r.state.activeInsulin == sd.activeInsulin
      && r.calls == [FetchAll] + EnrichCalls(sd.glucose)
      && r.state.accessEdit
  {
  }

  /** A date without a space makes `parseDate` throw inside the sync: the
      cached dose stays published, nothing is pushed, and the app is marked
      unreachable although the fetch succeeded. */
  lemma UnsplittableDateGoesOffline(c: Cache, local: ActiveInsulin, sd: ServerData, enriched: Result<Glucose, string>, pushed: Ack)
    requires Readable(c) && c.activeInsulin == Cached(Some(local)) && sd.activeInsulin.Some?
    requires LaterThan(local.date, sd.activeInsulin.value.date).None?
    ensures var r := LoadData(c, Success(sd), enriched, pushed);
      && r.state.activeInsulin == Some(local)
      && r.calls == [FetchAll] + EnrichCalls(sd.glucose)
      && !r.state.accessEdit
  {
  }

  /** A cached dose with none on the server stays published, nothing is
      pushed, and the app is reachable. */
  lemma ServerWithoutDoseKeepsLocal(c: Cache, local: ActiveInsulin, sd: ServerData, enriched: Result<Glucose, string>, pushed: Ack)
    requires Readable(c) && c.activeInsulin == Cached(Some(local)) && sd.activeInsulin.None?
    ensures var r := LoadData(c, Success(sd), enriched, pushed);
      && r.state.activeInsulin == Some(local)
      && r.calls == [FetchAll] + EnrichCalls(sd.glucose)
      && r.state.accessEdit
  {
  }

  /** Writing the state through and loading it back offline publishes it
      again; a null value leaves the older cached one to be published. */
  lemma PersistLoadRoundTrip(s: State, c: Cache, err: string, enriched: Result<Glucose, string>, pushed: Ack)
    requires Readable(c)
    ensures var r := LoadData(Persist(s, c), Failure(err), enriched, pushed).state;
      && r.products == (if s.products.Some? then s.products else c.products.Published())
      && r.settings == (if s.settings.Some? then s.settings else c.settings.Published())
      && r.activeInsulin == (if s.activeInsulin.Some? then s.activeInsulin else c.activeInsulin.Published())
      && r.glucose == (if s.glucose.Some? then s.glucose else c.glucose.Published())
  {
    OfflineStartPublishesCache(Persist(s, c), err, enriched, pushed);
  }

  /** A dose cached at 10:00 beats the server's from 09:00 the same day. */
  lemma LaterCachedDoseScenario()
    ensures LaterThan("02.01.25 10:00", "02.01.25 09:00") == Some(true)
    ensures LaterThan("02.01.25 09:00", "02.01.25 10:00") == Some(false)
    ensures LaterThan("02.01.25 10:00", "02.01.25 10:00") == Some(false)
  {
    DateUtils.ParseDateExamples();
    var ten := DateUtils.Civil(2025, 1, 2, 10, 0);
    DateUtils.SameDayLater(ten, 9);
  }
}
