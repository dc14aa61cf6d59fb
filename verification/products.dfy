/** The products screen: the search list, creating and editing a product
    through the name/value form, deleting one, and cancelling an edit. */
module Products {
  import opened Wrappers
  import opened Records
  import opened JsValue
  import Text
  import Seqs
  import Numbers

  /** The form: the typed name and value, and the product being edited
      (`null` while creating). */
  datatype Editor = Editor(name: string, value: string, editing: Option<Product>)

  const Blank := Editor("", "", None)

  const MissingFields := Dialog("Ошибка", "Заполните все поля")
  const Updated := Toast(Successful, "Продукт обновлен")
  const Added := Toast(Successful, "Продукт добавлен")
  const Deleted := Toast(Successful, "Продукт удален")
  const SaveFailed := Toast(Error, "Ошибка сохранения")
  const DeleteFailed := Toast(Error, "Ошибка удаления")

  /** `filteredProducts`: the products whose names contain the query,
      ignoring case, in list order; nothing before the list is loaded. */
  function Search(products: Option<seq<Product>>, query: string): (r: seq<Product>)
    ensures products.None? ==> r == []
    ensures forall p :: p in r <==> products.Some? && p in products.value && NameMatches(p, query)
    ensures products.Some? ==> forall p :: multiset(r)[p] == if NameMatches(p, query) then multiset(products.value)[p] else 0
  {
    match products
    case None => []
    case Some(ps) =>
      Seqs.FilterCount(ps, (p: Product) => NameMatches(p, query));
      Seqs.Filter(ps, (p: Product) => NameMatches(p, query))
  }

  /** The search never reorders: searching a list made of two parts gives
      the matches of the first part followed by those of the second. */
  lemma SearchKeepsOrder(a: seq<Product>, b: seq<Product>, query: string)
    ensures Search(Some(a + b), query) == Search(Some(a), query) + Search(Some(b), query)
  {
    Seqs.FilterAppend(a, b, (p: Product) => NameMatches(p, query));
  }

  /** An empty query shows the whole list. */
  lemma {:induction false} EmptySearchShowsAll(products: seq<Product>)
    ensures Search(Some(products), "") == products
  {
    forall k | 0 <= k < |products| ensures NameMatches(products[k], "") {
      assert Text.OccursAt(Text.Lower(products[k].name), Text.Lower(""), 0);
    }
    Seqs.FilterKeepsAll(products, (p: Product) => NameMatches(p, ""));
  }

  /** The guard at the top of `handleSave` as written: a name that is not
      blank and a value text that is not empty. */
  predicate FieldsFilledAsWritten(ed: Editor) {
    !(Text.IsBlank(ed.name) || ed.value == [])
  }

  /** `parseFloat(value)` as the saved value: NaN when the text starts
      with no number. */
  function SavedValueAsWritten(ed: Editor): (r: Num)
    ensures r.NaN? <==> Numbers.ParseFloat(ed.value).None?
    ensures r.Finite? ==> Numbers.ParseFloat(ed.value) == Some(r.v)
  {
    match Numbers.ParseFloat(ed.value)
    case None => NaN
    case Some(v) => Finite(v)
  }

  /** The guard as written lets a value text without a number through, so
      the product would be stored with the value NaN. */
  lemma GuardAdmitsNaN()
    ensures var ed := Editor("Хлеб", ",", None);
      FieldsFilledAsWritten(ed) && SavedValueAsWritten(ed).NaN?
  {
    var ed := Editor("Хлеб", ",", None);
    assert !Text.IsSpace(ed.name[0]);
    assert Text.TrimStart(",") == ",";
    assert Numbers.ScanDecimal(",") == 0;
    Numbers.ScanDecimalIsLongest(",");
  }

  /** The guard as intended: both fields filled and the value text starting
      with a number. */
  predicate FieldsFilled(ed: Editor) {
    FieldsFilledAsWritten(ed) && Numbers.ParseFloat(ed.value).Some?
  }

  /** The value a filled form saves. */
  function SavedValue(ed: Editor): (r: real)
    requires FieldsFilled(ed)
    ensures SavedValueAsWritten(ed) == Finite(r)
  {
    Numbers.ParseFloat(ed.value).value
  }

  /** Every form the intended guard accepts saves a number. */
  lemma FilledSavesNumber(ed: Editor)
    ensures FieldsFilled(ed) <==> FieldsFilledAsWritten(ed) && SavedValueAsWritten(ed).Finite?
  {
  }

  /** `products.map(p => p.id === id ? updated : p)`. */
  function ReplaceById(ps: seq<Product>, id: int, updated: Product): (r: seq<Product>)
    ensures |r| == |ps|
    ensures forall k :: 0 <= k < |ps| ==> r[k] == if ps[k].id == id then updated else ps[k]
  {
    seq(|ps|, k requires 0 <= k < |ps| => if ps[k].id == id then updated else ps[k])
  }

  /** Replacing by id with a record of the same id keeps every position's
      id, and doing it twice is doing it once. */
  lemma ReplaceKeepsIds(ps: seq<Product>, updated: Product)
    ensures var r := ReplaceById(ps, updated.id, updated);
      && (forall k :: 0 <= k < |ps| ==> r[k].id == ps[k].id)
      && ReplaceById(r, updated.id, updated) == r
  {
  }

  /** `products.find(p => p.id === id)`. */
  function FindById(ps: seq<Product>, id: int): (r: Option<Product>)
    ensures r.None? <==> forall k :: 0 <= k < |ps| ==> ps[k].id != id
    ensures r.Some? ==> r.value.id == id && exists k :: 0 <= k < |ps| && ps[k] == r.value && (forall j :: 0 <= j < k ==> ps[j].id != id)
  {
    if ps == [] then None
    else if ps[0].id == id then assert ps[0] == ps[0]; Some(ps[0])
    else
      var r := FindById(ps[1..], id);
      assert forall k :: 1 <= k < |ps| ==> ps[k] == ps[1..][k - 1];
      r
  }

  /** What a save or delete leaves behind: the store's product list, the
      form, the alert, the remote calls in order, and the values the
      `isSaving` flag takes. */
  datatype SaveOutcome = SaveOutcome(products: Option<seq<Product>>, editor: Editor, alert: Alert, calls: seq<Call>, saving: seq<bool>)

  /** The editing branch of `handleSave`: the edited record keeps its id
      and takes the trimmed name and the value. */
  function SaveEdit(products: Option<seq<Product>>, accessEdit: bool, ed: Editor, updated: Product, pushed: Ack): (r: SaveOutcome)
    ensures r.saving == [true, false]
    ensures r.calls == (if accessEdit then [UpdateProducts([updated])] else [])
    ensures r.alert == Updated <==> (!accessEdit || pushed.Success?) && products.Some?
    ensures r.alert == Updated ==> r.editor == Blank && r.products == Some(ReplaceById(products.value, updated.id, updated))
    ensures r.alert != Updated ==> r.alert == SaveFailed && r.products == products && r.editor == ed
  {
    var calls := if accessEdit then [UpdateProducts([updated])] else [];
    if (accessEdit && pushed.Failure?) || products.None? then SaveOutcome(products, ed, SaveFailed, calls, [true, false])
    else SaveOutcome(Some(ReplaceById(products.value, updated.id, updated)), Blank, Updated, calls, [true, false])
  }

  /** The creating branch of `handleSave`: reachable, push the new product
      and reload the list; offline, append it under the id `nowMs`. */
  function SaveCreate(products: Option<seq<Product>>, accessEdit: bool, ed: Editor, name: string, value: real, nowMs: int, pushed: Ack, fetched: Result<seq<Product>, string>): (r: SaveOutcome)
    ensures r.saving == [true, false]
    ensures r.alert == Added ==> r.editor == Blank
    ensures r.alert != Added ==> r.alert == SaveFailed && r.products == products && r.editor == ed
    ensures accessEdit ==>
      && r.calls == [CreateProduct(name, value)] + (if pushed.Success? then [GetProducts] else [])
      && (r.alert == Added <==> pushed.Success? && fetched.Success?)
      && (r.alert == Added ==> r.products == Some(fetched.value))
    ensures !accessEdit ==>
      && r.calls == [] && r.alert == Added
      && r.products == Some(products.GetOr([]) + [Product(nowMs, name, value)])
  {
    if accessEdit then
      if pushed.Failure? then SaveOutcome(products, ed, SaveFailed, [CreateProduct(name, value)], [true, false])
      else
        var calls := [CreateProduct(name, value), GetProducts];
        match fetched
        case Failure(_) => SaveOutcome(products, ed, SaveFailed, calls, [true, false])
        case Success(ps) => SaveOutcome(Some(ps), Blank, Added, calls, [true, false])
    else
      SaveOutcome(Some(products.GetOr([]) + [Product(nowMs, name, value)]), Blank, Added, [], [true, false])
  }

  /** `handleSave` with the intended guard. `pushed` answers the remote
      update or create, `fetched` the reload of the list after a create,
      and `nowMs` is `Date.now()`, the id of a product created offline.
      A thrown call, or `products!` on a list that is not loaded, leaves
      the list and the form as they were. */
  function HandleSave(products: Option<seq<Product>>, accessEdit: bool, ed: Editor, nowMs: int, pushed: Ack, fetched: Result<seq<Product>, string>): (r: SaveOutcome)
    ensures !FieldsFilled(ed) ==> r == SaveOutcome(products, ed, MissingFields, [], [])
    ensures FieldsFilled(ed) && ed.editing.Some? ==>
      r == SaveEdit(products, accessEdit, ed, Product(ed.editing.value.id, Text.Trim(ed.name), SavedValue(ed)), pushed)
    ensures FieldsFilled(ed) && ed.editing.None? ==>
      r == SaveCreate(products, accessEdit, ed, Text.Trim(ed.name), SavedValue(ed), nowMs, pushed, fetched)
  {
    if !FieldsFilled(ed) then SaveOutcome(products, ed, MissingFields, [], [])
    else
      match ed.editing
      case Some(e) => SaveEdit(products, accessEdit, ed, Product(e.id, Text.Trim(ed.name), SavedValue(ed)), pushed)
      case None => SaveCreate(products, accessEdit, ed, Text.Trim(ed.name), SavedValue(ed), nowMs, pushed, fetched)
  }

  /** An offline create keeps the old list as a prefix and adds exactly one
      product. */
  lemma OfflineCreateAppends(ps: seq<Product>, ed: Editor, nowMs: int, pushed: Ack, fetched: Result<seq<Product>, string>)
    requires FieldsFilled(ed) && ed.editing.None?
    ensures var r := HandleSave(Some(ps), false, ed, nowMs, pushed, fetched).products.value;
      && |r| == |ps| + 1 && r[..|ps|] == ps && r[|ps|].id == nowMs
  {
  }

  /** Editing changes only the edited product: positions, ids and every
      other product stay as they were. */
  lemma EditChangesOnlyTarget(ps: seq<Product>, accessEdit: bool, ed: Editor, nowMs: int, pushed: Ack, fetched: Result<seq<Product>, string>)
    requires FieldsFilled(ed) && ed.editing.Some?
    requires !accessEdit || pushed.Success?
    ensures var r := HandleSave(Some(ps), accessEdit, ed, nowMs, pushed, fetched).products.value;
      && |r| == |ps|
      && (forall k :: 0 <= k < |ps| ==> r[k].id == ps[k].id)
      && (forall k :: 0 <= k < |ps| && ps[k].id != ed.editing.value.id ==> r[k] == ps[k])
      && (forall k :: 0 <= k < |ps| && ps[k].id == ed.editing.value.id ==> r[k].name == Text.Trim(ed.name) && r[k].value == SavedValue(ed))
  {
  }

  /** `p => p.id !== id` */
  function Other(id: int): Product -> bool {
    (p: Product) => p.id != id
  }

  /** `handleDelete` after the confirmation: the first product with the id
      is deleted remotely when found and reachable, then every product with
      the id leaves the list. The form `ed` is left as it is. */
  function HandleDelete(products: Option<seq<Product>>, ed: Editor, accessEdit: bool, id: int, removed: Ack): (r: SaveOutcome)
    ensures r.saving == [] && r.editor == ed
    ensures products.None? ==> r.products == None && r.alert == DeleteFailed && r.calls == []
    ensures products.Some? ==>
      var found := FindById(products.value, id);
      && r.calls == (if found.Some? && accessEdit then [DeleteProduct(found.value)] else [])
      && (r.alert == Deleted <==> !(found.Some? && accessEdit && removed.Failure?))
      && (r.alert != Deleted ==> r.alert == DeleteFailed && r.products == products)
      && (r.alert == Deleted ==> r.products.Some?)
      && (r.alert == Deleted ==> forall p :: p in r.products.value <==> p in products.value && p.id != id)
      && (r.alert == Deleted ==> forall p :: multiset(r.products.value)[p] == if p.id != id then multiset(products.value)[p] else 0)
  {
    match products
    case None => SaveOutcome(None, ed, DeleteFailed, [], [])
    case Some(ps) =>
      var found := FindById(ps, id);
      var calls := if found.Some? && accessEdit then [DeleteProduct(found.value)] else [];
      if found.Some? && accessEdit && removed.Failure? then SaveOutcome(products, ed, DeleteFailed, calls, [])
      else
        Seqs.FilterCount(ps, Other(id));
        SaveOutcome(Some(Seqs.Filter(ps, Other(id))), ed, Deleted, calls, [])
  }

  /** Deleting the product just created offline under a fresh id gives the
      old list back. */
  lemma DeleteUndoesOfflineCreate(ps: seq<Product>, ed: Editor, nowMs: int, pushed: Ack, fetched: Result<seq<Product>, string>, removed: Ack)
    requires FieldsFilled(ed) && ed.editing.None?
    requires forall k :: 0 <= k < |ps| ==> ps[k].id != nowMs
    ensures var created := HandleSave(Some(ps), false, ed, nowMs, pushed, fetched).products;
      HandleDelete(created, ed, false, nowMs, removed).products == Some(ps)
  {
    var added := Product(nowMs, Text.Trim(ed.name), SavedValue(ed));
    assert HandleSave(Some(ps), false, ed, nowMs, pushed, fetched).products == Some(ps + [added]);
    DropFresh(ps, added);
    assert HandleDelete(Some(ps + [added]), ed, false, nowMs, removed).products == Some(Seqs.Filter(ps + [added], Other(nowMs)));
  }

  /** Dropping the id of a product appended under a fresh id. */
  lemma DropFresh(ps: seq<Product>, added: Product)
    requires forall k :: 0 <= k < |ps| ==> ps[k].id != added.id
    ensures Seqs.Filter(ps + [added], Other(added.id)) == ps
  {
    Seqs.FilterAppend(ps, [added], Other(added.id));
    Seqs.FilterKeepsAll(ps, Other(added.id));
    assert Seqs.Filter([added], Other(added.id)) == [];
  }

  /** `handleCancel`: leave editing and clear the form. */
  function HandleCancel(ed: Editor): (r: Editor)
    ensures r.name == [] && r.value == [] && r.editing.None?
    ensures !FieldsFilled(r)
  {
    Blank
  }

  /** A successful save leaves the form as cancelling would. */
  lemma SaveClearsLikeCancel(products: Option<seq<Product>>, accessEdit: bool, ed: Editor, nowMs: int, pushed: Ack, fetched: Result<seq<Product>, string>)
    requires HandleSave(products, accessEdit, ed, nowMs, pushed, fetched).alert.Toast?
    requires HandleSave(products, accessEdit, ed, nowMs, pushed, fetched).alert.severity == Successful
    ensures HandleSave(products, accessEdit, ed, nowMs, pushed, fetched).editor == HandleCancel(ed)
  {
  }
}
