/** Pull-to-refresh (useRefresh): refetch everything from the server and
    overwrite the store, refused while the server is unreachable. The
    `refreshing` flag is reported as the sequence of values it takes. */
module Refresh {
  import opened Wrappers
  import opened Records
  import Store

  datatype RefreshOutcome = RefreshOutcome(
    state: Store.State,
    alert: Alert,
    calls: seq<Call>,
    refreshing: seq<bool>)

  const Offline := Toast(Info, "Нет подключения к серверу")
  const Updated := Toast(Successful, "Данные обновлены")
  const UpdateFailed := Toast(Error, "Ошибка обновления")

  /** `onRefresh`. */
  function OnRefresh(s: Store.State, fetched: Result<Store.ServerData, string>, enriched: Result<Glucose, string>): (r: RefreshOutcome)
    ensures r.state.accessEdit == s.accessEdit && r.state.loading == s.loading
    ensures !s.accessEdit ==> r == RefreshOutcome(s, Offline, [], [])
    ensures s.accessEdit ==> r.refreshing == [true, false] && |r.calls| >= 1 && r.calls[0] == FetchAll
    ensures s.accessEdit && fetched.Failure? ==> r.state == s && r.alert == UpdateFailed && r.calls == [FetchAll]
    ensures s.accessEdit && fetched.Success? ==>
      && r.alert == Updated
      && r.state.products == Some(fetched.value.products)
      && r.state.settings == Some(fetched.value.settings)
      && r.state.activeInsulin == fetched.value.activeInsulin
      && r.state.glucose == Store.EnrichedGlucose(fetched.value.glucose, enriched)
  {
    if !s.accessEdit then RefreshOutcome(s, Offline, [], [])
    else
      match fetched
      case Failure(_) => RefreshOutcome(s, UpdateFailed, [FetchAll], [true, false])
      case Success(sd) =>
        var s' := s.(products := Some(sd.products), settings := Some(sd.settings),
          activeInsulin := sd.activeInsulin, glucose := Store.EnrichedGlucose(sd.glucose, enriched));
        RefreshOutcome(s', Updated, [FetchAll] + Store.EnrichCalls(sd.glucose), [true, false])
  }

  /** A successful refresh leaves nothing of the previous store values:
      two stores that differ only in those values refresh to the same
      state. */
  lemma RefreshForgetsOldValues(s1: Store.State, s2: Store.State, sd: Store.ServerData, enriched: Result<Glucose, string>)
    requires s1.accessEdit && s2.accessEdit && s1.loading == s2.loading
    ensures OnRefresh(s1, Success(sd), enriched) == OnRefresh(s2, Success(sd), enriched)
  {
  }

  /** Refreshing twice with the same server answers is the same as once. */
  lemma RefreshIdempotent(s: Store.State, sd: Store.ServerData, enriched: Result<Glucose, string>)
    requires s.accessEdit
    ensures var once := OnRefresh(s, Success(sd), enriched);
      OnRefresh(once.state, Success(sd), enriched).state == once.state
  {
  }

  /** Unlike the start-up sync, a refresh takes the server's dose even when
      the stored one is later. */
  lemma RefreshIgnoresTimestamps(s: Store.State, sd: Store.ServerData, enriched: Result<Glucose, string>)
    requires s.accessEdit && s.activeInsulin.Some? && sd.activeInsulin.Some?
    requires Store.LaterThan(s.activeInsulin.value.date, sd.activeInsulin.value.date) == Some(true)
    ensures OnRefresh(s, Success(sd), enriched).state.activeInsulin == sd.activeInsulin
  {
  }
}
