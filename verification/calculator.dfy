/** The dose calculator screen: meal choice, the product picker, the XE
    total, the recommended dose and saving it as the new active insulin. */
module Calculator {
  import opened Wrappers
  import opened Records
  import opened JsValue
  import JsMath
  import Text
  import Seqs
  import NumberUtils
  import DateUtils
  import InsulinUtils
  import Store

  /** A picked product with how many portions are eaten. */
  datatype Selected = Selected(product: Product, count: real)

  datatype Form = Form(meal: Field, glucoseText: string, selected: seq<Selected>, query: string, loading: bool)

  /** The meal preselected at the hour the screen opens. */
  function DefaultMeal(hour: int): (f: Field)
    ensures f == Breakfast <==> 7 <= hour <= 11
    ensures f == Lunch <==> hour <= 6 || 12 <= hour <= 17
    ensures f == Dinner <==> hour >= 18
  {
    if hour > 6 && hour < 12 then Breakfast else if hour < 18 then Lunch else Dinner
  }

  /** The screen's initial form. */
  function InitialForm(hour: int): (r: Form)
    ensures r.meal == DefaultMeal(hour) && r.selected == [] && r.glucoseText == [] && r.query == [] && !r.loading
  {
    Form(DefaultMeal(hour), "", [], "", false)
  }

  predicate IsSelected(selected: seq<Selected>, p: Product) {
    exists k :: 0 <= k < |selected| && selected[k].product.id == p.id
  }

  /** `filteredProducts`: the products not yet picked whose names match the
      query, sorted by name under the collation `rank`. */
  function FilteredProducts(products: Option<seq<Product>>, selected: seq<Selected>, query: string, rank: string -> real): (r: seq<Product>)
    ensures products.None? ==> r == []
    ensures forall p :: p in r <==> products.Some? && p in products.value && !IsSelected(selected, p) && NameMatches(p, query)
    ensures Seqs.SortedBy(r, (p: Product) => rank(p.name))
    ensures products.Some? ==>
      forall p :: multiset(r)[p] == if !IsSelected(selected, p) && NameMatches(p, query) then multiset(products.value)[p] else 0
  {
    match products
    case None => []
    case Some(ps) =>
      var unpicked := Seqs.Filter(ps, (p: Product) => !IsSelected(selected, p));
      var matching := Seqs.Filter(unpicked, (p: Product) => NameMatches(p, query));
      Seqs.FilterCount(ps, (p: Product) => !IsSelected(selected, p));
      Seqs.FilterCount(unpicked, (p: Product) => NameMatches(p, query));
      Seqs.SortBy(matching, (p: Product) => rank(p.name))
  }

  /** The dropdown: the first five matches, and nothing while the query is
      empty. */
  function Dropdown(products: Option<seq<Product>>, selected: seq<Selected>, query: string, rank: string -> real): (r: seq<Product>)
    ensures |r| <= 5
    ensures query == [] ==> r == []
    ensures query != [] ==>
      && |r| <= |FilteredProducts(products, selected, query, rank)|
      && r == FilteredProducts(products, selected, query, rank)[..|r|]
    ensures query != [] && |FilteredProducts(products, selected, query, rank)| >= 5 ==> |r| == 5
  {
    if |query| > 0 then Seqs.Take(FilteredProducts(products, selected, query, rank), 5) else []
  }

  /** The exact XE sum `Σ value × count`, accumulated from the left. */
  function SumXE(selected: seq<Selected>): real {
    if selected == [] then 0.0
    else SumXE(selected[..|selected| - 1]) + selected[|selected| - 1].product.value * selected[|selected| - 1].count
  }

  /** `totalXE`: the sum rounded to one decimal. */
  function TotalXE(selected: seq<Selected>): (r: real)
    ensures SumXE(selected) - 0.05 < r <= SumXE(selected) + 0.05
    ensures r * 10.0 == (r * 10.0).Floor as real
  {
    JsMath.Round1(SumXE(selected))
  }

  /** `totalValue`: the dose for the typed glucose, the chosen meal's ratio
      (0 when missing) and the residual of the stored dose at `now`; a
      stored date without a space makes the render throw. */
  function TotalValue(f: Form, settings: Option<Settings>, active: Option<ActiveInsulin>, now: DateUtils.Moment): (r: Result<Num, string>)
    ensures r.Failure? <==> active.Some? && DateUtils.ParseDate(active.value.date).Throws?
    ensures active.None? ==>
      var need := TotalXE(f.selected) * RatioOrZero(settings, f.meal) + InsulinUtils.GlucoseCorrection(NumberUtils.ParseNumber(f.glucoseText));
      && r.Success? && r.value.Finite?
      && r.value.v - 1.0 < need <= r.value.v
      && r.value.v == r.value.v.Floor as real
  {
    match InsulinUtils.CalculateActiveInsulin(active, now)
    case Failure(e) => Failure(e)
    case Success(residual) =>
      match InsulinUtils.PassedTime(active, now)
      case Failure(e) => Failure(e)
      case Success(passed) =>
        Success(InsulinUtils.CalculateInsulinDose(TotalXE(f.selected), NumberUtils.ParseNumber(f.glucoseText),
          RatioOrZero(settings, f.meal), residual, passed))
  }

  /** `addProduct`: append one portion and clear the search. */
  function AddProduct(f: Form, p: Product): (r: Form)
    ensures r.selected == f.selected + [Selected(p, 1.0)] && r.query == []
    ensures r.meal == f.meal && r.glucoseText == f.glucoseText && r.loading == f.loading
  {
    f.(selected := f.selected + [Selected(p, 1.0)], query := "")
  }

  /** Adding a product adds its value to the exact XE sum. */
  lemma AddProductSum(f: Form, p: Product)
    ensures SumXE(AddProduct(f, p).selected) == SumXE(f.selected) + p.value
  {
    var s := AddProduct(f, p).selected;
    assert s[..|s| - 1] == f.selected;
  }

  /** `updateProductCount`: the count of entry `i` becomes the typed number. */
  function UpdateProductCount(f: Form, i: nat, text: string): (r: Form)
    requires i < |f.selected|
    ensures |r.selected| == |f.selected|
    ensures r.selected[i] == Selected(f.selected[i].product, NumberUtils.ParseNumber(text))
    ensures forall k :: 0 <= k < |f.selected| && k != i ==> r.selected[k] == f.selected[k]
    ensures r.meal == f.meal && r.glucoseText == f.glucoseText && r.query == f.query && r.loading == f.loading
  {
    f.(selected := f.selected[i := f.selected[i].(count := NumberUtils.ParseNumber(text))])
  }

  /** `removeProduct`: drop entry `i`, keeping the others in order; an index
      past the end drops nothing. */
  function RemoveProduct(f: Form, i: nat): (r: Form)
    ensures i < |f.selected| ==> |r.selected| == |f.selected| - 1
    ensures i >= |f.selected| ==> r.selected == f.selected
    ensures forall k :: 0 <= k < i && k < |f.selected| ==> r.selected[k] == f.selected[k]
    ensures forall k :: i < k < |f.selected| ==> r.selected[k - 1] == f.selected[k]
    ensures r.meal == f.meal && r.glucoseText == f.glucoseText && r.query == f.query && r.loading == f.loading
  {
    if i < |f.selected| then f.(selected := f.selected[..i] + f.selected[i + 1..]) else f
  }

  /** Removing what was just added restores the picked list. */
  lemma RemoveUndoesAdd(f: Form, p: Product)
    ensures RemoveProduct(AddProduct(f, p), |f.selected|).selected == f.selected
  {
  }

  /** The save button is enabled only for a positive dose while no save is
      in flight. */
  predicate SaveEnabled(dose: Num, loading: bool) {
    !(!dose.Truthy() || dose.Less(0.0) || loading)
  }

  lemma SaveEnabledMeans(dose: Num, loading: bool)
    ensures SaveEnabled(dose, loading) <==> !loading && (dose.PosInf? || (dose.Finite? && dose.v > 0.0))
  {
  }

  datatype SaveOutcome = SaveOutcome(state: Store.State, form: Form, alert: Alert, calls: seq<Call>)

  const Saved := Toast(Successful, "Данные сохранены")
  const SaveFailed := Toast(Error, "Ошибка сохранения")

  /** The record `handleSave` builds: the stored id (or 1), the formatted
      clock, and the dose. */
  function NewInsulin(active: Option<ActiveInsulin>, now: DateUtils.Moment, dose: real): (r: ActiveInsulin)
    requires DateUtils.WellFormedMoment(now)
    ensures r.id == IdOrOne(if active.Some? then Some(active.value.id) else None)
    ensures r.value == dose
    ensures r.date == DateUtils.FormatDate(now)
  {
    ActiveInsulin(IdOrOne(if active.Some? then Some(active.value.id) else None), DateUtils.FormatDate(now), dose)
  }

  /** `handleSave`, for a finite dose the enabled button allows: push the
      new record when reachable, then store it and reset the form; a failed
      push changes nothing but the alert. */
  function HandleSave(s: Store.State, f: Form, now: DateUtils.Moment, dose: real, pushed: Ack): (r: SaveOutcome)
    requires DateUtils.WellFormedMoment(now)
    requires SaveEnabled(Finite(dose), f.loading)
    ensures var rec := NewInsulin(s.activeInsulin, now, dose);
      && r.calls == (if s.accessEdit then [UpdateActiveInsulin(rec)] else [])
      && (s.accessEdit && pushed.Failure? ==> r.state == s && r.form == f && r.alert == SaveFailed)
      && (!s.accessEdit || pushed.Success? ==>
            && r.state == s.(activeInsulin := Some(rec))
            && r.form == f.(selected := [], glucoseText := "")
            && r.alert == Saved)
  {
    var rec := NewInsulin(s.activeInsulin, now, dose);
    if s.accessEdit && pushed.Failure? then SaveOutcome(s, f, SaveFailed, [UpdateActiveInsulin(rec)])
    else SaveOutcome(s.(activeInsulin := Some(rec)), f.(selected := [], glucoseText := ""), Saved,
      if s.accessEdit then [UpdateActiveInsulin(rec)] else [])
  }

  /** A saved dose of this century is stored with a date that reads back as
      the clock at the save, so right after the save no time has passed. */
  lemma SavedDoseReadsBack(s: Store.State, f: Form, now: DateUtils.Moment, dose: real, pushed: Ack)
    requires DateUtils.WellFormedMoment(now) && 2000 <= now.civil.year <= 2099
    requires SaveEnabled(Finite(dose), f.loading)
    requires !s.accessEdit || pushed.Success?
    ensures var saved := HandleSave(s, f, now, dose, pushed).state.activeInsulin;
      && saved.Some?
      && DateUtils.ParseDate(saved.value.date) == DateUtils.Valid(now.civil)
      && InsulinUtils.PassedTime(saved, DateUtils.Moment(now.civil, 0, 0)) == Success(Finite(0.0))
  {
    DateUtils.FormatParseRoundTrip(now);
    DateUtils.MinutesDiffSame(InsulinUtils.ParsedInstant(now.civil));
  }
}
