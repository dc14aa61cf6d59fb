/** The records the app stores, exchanges with the server and shows,
    and the alerts its handlers raise. */
module Records {
  import opened Wrappers
  import Text

  /** A food with its bread units (XE) per portion. */
  datatype Product = Product(id: int, name: string, value: real)

  /** The case-insensitive name search of both product lists:
      `name.toLowerCase().includes(query.toLowerCase())`. */
  predicate NameMatches(p: Product, query: string) {
    Text.Includes(Text.Lower(p.name), Text.Lower(query))
  }

  /** The six numeric fields of the settings record: long-acting doses
      and the insulin-per-XE ratio of each meal. */
  datatype Field = LongMorning | LongEvening | LongDay | Breakfast | Lunch | Dinner

  /** A possibly partial settings record: fields absent from `fields` are
      `undefined`, as in `Partial<Settings>`. */
  datatype Settings = Settings(id: Option<int>, fields: map<Field, real>)

  /** The last recorded dose and when it was given, as `DD.MM.YY HH:mm`. */
  datatype ActiveInsulin = ActiveInsulin(id: int, date: string, value: real)

  /** One glucose summary. */
  datatype GlucoseStat = GlucoseStat(id: int, date: string, value: real, highCount: int, lowCount: int, totalGlucose: real)

  /** Day and night summaries, and optionally the whole day. */
  datatype Glucose = Glucose(day: GlucoseStat, night: GlucoseStat, allDay: Option<GlucoseStat>)

  /** The toast kinds `success`, `error` and `info`. */
  datatype Severity = Successful | Error | Info

  /** What a handler shows: a toast through the alert context, or a
      native dialog with a title. */
  datatype Alert = Toast(severity: Severity, message: string) | Dialog(title: string, message: string)

  /** The remote calls a handler makes, in order. */
  datatype Call =
    | FetchAll
    | CalculateGlucose(glucose: Glucose)
    | UpdateActiveInsulin(insulin: ActiveInsulin)
    | CreateProduct(name: string, value: real)
    | GetProducts
    | UpdateProducts(products: seq<Product>)
    | DeleteProduct(product: Product)
    | UpdateSettings(settings: Settings)

  /** The value of a settings field, `undefined` when absent. */
  function FieldValue(s: Option<Settings>, f: Field): Option<real> {
    if s.Some? && f in s.value.fields then Some(s.value.fields[f]) else None
  }

  /** `settings?.[field] || 0`: a missing or falsy ratio counts as 0. */
  function RatioOrZero(s: Option<Settings>, f: Field): (r: real)
    ensures FieldValue(s, f).Some? ==> r == FieldValue(s, f).value
    ensures FieldValue(s, f).None? ==> r == 0.0
  {
    match FieldValue(s, f)
    case Some(v) => v
    case None => 0.0
  }

  /** `record?.id || 1`: the id of an existing record unless it is 0. */
  function IdOrOne(id: Option<int>): (r: int)
    ensures r != 0
    ensures id.Some? && id.value != 0 ==> r == id.value
    ensures id.None? || id.value == 0 ==> r == 1
  {
    if id.Some? && id.value != 0 then id.value else 1
  }
}
