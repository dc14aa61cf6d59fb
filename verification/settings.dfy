/** The settings screen: a form over the numeric settings fields, seeded
    from the store, edited field by field and saved. */
module SettingsScreen {
  import opened Wrappers
  import opened Records
  import Text
  import Numbers
  import NumberUtils

  const Saved := Toast(Successful, "Настройки сохранены")
  const SaveFailed := Toast(Error, "Ошибка сохранения")

  /** The form before the store has settings: the two long-acting doses
      and the three meal ratios at 0, no `longDay` and no id. */
  function DefaultForm(): (r: Settings)
    ensures r.id.None?
    ensures r.fields.Keys == {LongMorning, LongEvening, Breakfast, Lunch, Dinner}
    ensures LongDay !in r.fields
    ensures forall f :: f in r.fields ==> r.fields[f] == 0.0
  {
    Settings(None, map[LongMorning := 0.0, LongEvening := 0.0, Breakfast := 0.0, Lunch := 0.0, Dinner := 0.0])
  }

  /** The effect on `settings`: once the store holds settings the form
      becomes them; until then it is left alone. */
  function Seed(form: Settings, settings: Option<Settings>): (r: Settings)
    ensures settings.Some? ==> r == settings.value
    ensures settings.None? ==> r == form
  {
    settings.GetOr(form)
  }

  /** `parseFloat(value) || 0`: the number the text starts with, or 0 when
      there is none. No comma is turned into a point. */
  function TypedValue(text: string): (r: real)
    ensures Numbers.ParseFloat(text).Some? ==> r == Numbers.ParseFloat(text).value
    ensures Numbers.ParseFloat(text).None? ==> r == 0.0
  {
    match Numbers.ParseFloat(text)
    case None => 0.0
    case Some(v) => if v == 0.0 then 0.0 else v
  }

  /** `handleChange`: the named field takes the typed value and nothing
      else in the form changes. */
  function HandleChange(form: Settings, field: Field, text: string): (r: Settings)
    ensures r.id == form.id
    ensures field in r.fields && r.fields[field] == TypedValue(text)
    ensures forall f :: f != field ==> (f in r.fields <==> f in form.fields)
    ensures forall f :: f != field && f in form.fields ==> r.fields[f] == form.fields[f]
  {
    form.(fields := form.fields[field := TypedValue(text)])
  }

  /** The last edit of a field wins, and edits of different fields do not
      interfere. */
  lemma ChangesCommute(form: Settings, f: Field, g: Field, a: string, b: string)
    ensures HandleChange(HandleChange(form, f, a), f, b) == HandleChange(form, f, b)
    ensures f != g ==> HandleChange(HandleChange(form, f, a), g, b) == HandleChange(HandleChange(form, g, b), f, a)
  {
    MapUpdates(form.fields, f, g, TypedValue(a), TypedValue(b));
  }

  /** A later update of a key hides an earlier one, and updates of two
      different keys commute. */
  lemma MapUpdates<K, V>(m: map<K, V>, f: K, g: K, a: V, b: V)
    ensures m[f := a][f := b] == m[f := b]
    ensures f != g ==> m[f := a][g := b] == m[g := b][f := a]
  {
  }

  /** Without a comma the field reads the text as the calculator's
      `parseNumber` does, blank text included. */
  lemma TypedValueAgreesWithParseNumber(text: string)
    requires ',' !in text
    ensures TypedValue(text) == NumberUtils.ParseNumber(text)
  {
    if Text.IsBlank(text) {
      assert Text.Trim(text) == "";
    } else {
      assert Text.ReplaceFirstChar(text, ',', '.') == text;
      assert Text.Trim(text) != "";
    }
  }

  /** With a comma the two readings part: `1,5` is 1 here and 1.5 in the
      calculator. */
  lemma CommaIsNotADecimalPoint()
    ensures TypedValue("1,5") == 1.0
    ensures NumberUtils.ParseNumber("1,5") == 1.5
  {
    assert Numbers.ParseFloat("1,5") == Some(1.0) by {
      var t := "1,5";
      assert t[..1] == "1";
      assert Numbers.DigitsValue("1") == 1;
      Numbers.ParseFloatStopsAt(t, 1, 1.0);
    }
    NumberUtils.ParseNumberComma();
  }

  datatype SaveOutcome = SaveOutcome(settings: Option<Settings>, alert: Alert, calls: seq<Call>, saving: seq<bool>)

  /** The record `handleSave` writes: the form with the stored id, or 1. */
  function ToSave(form: Settings, settings: Option<Settings>): (r: Settings)
    ensures r.fields == form.fields
    ensures r.id.Some? && r.id.value != 0
    ensures settings.Some? && settings.value.id.Some? && settings.value.id.value != 0 ==> r.id == settings.value.id
    ensures !(settings.Some? && settings.value.id.Some? && settings.value.id.value != 0) ==> r.id == Some(1)
  {
    form.(id := Some(IdOrOne(if settings.Some? then settings.value.id else None)))
  }

  /** `handleSave`: push the record when reachable, then store it; a failed
      push leaves the stored settings alone. */
  function HandleSave(form: Settings, settings: Option<Settings>, accessEdit: bool, pushed: Ack): (r: SaveOutcome)
    ensures r.saving == [true, false]
    ensures r.calls == if accessEdit then [UpdateSettings(ToSave(form, settings))] else []
    ensures r.alert == Saved <==> !accessEdit || pushed.Success?
    ensures r.alert == Saved ==> r.settings == Some(ToSave(form, settings))
    ensures r.alert != Saved ==> r.alert == SaveFailed && r.settings == settings
  {
    var saved := ToSave(form, settings);
    var calls := if accessEdit then [UpdateSettings(saved)] else [];
    if accessEdit && pushed.Failure? then SaveOutcome(settings, SaveFailed, calls, [true, false])
    else SaveOutcome(Some(saved), Saved, calls, [true, false])
  }

  /** After a save the form seeded from the store is the saved record, and
      saving that form again stores the same record under the same id. */
  lemma SaveReseeds(form: Settings, settings: Option<Settings>, accessEdit: bool, pushed: Ack)
    requires !accessEdit || pushed.Success?
    ensures var once := HandleSave(form, settings, accessEdit, pushed).settings;
      && Seed(form, once) == ToSave(form, settings)
      && HandleSave(Seed(form, once), once, accessEdit, pushed).settings == once
  {
  }
}
