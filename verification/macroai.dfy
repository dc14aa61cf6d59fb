/** The nutrition lookup: a chat model is asked for the protein, fat,
    carbohydrate and calorie content of a product, and its free-form answer
    is read back into numbers. The chat call itself and `JSON.parse` are
    parameters. */
module MacroAi {
  import opened Wrappers
  import opened JsValue
  import Text
  import Seqs
  import Numbers

  /** What the lookup returns; `None` in a numeric field is `null`. */
  datatype MacroInfo = MacroInfo(
    protein: Option<real>,
    fat: Option<real>,
    carbs: Option<real>,
    calories: Option<real>,
    portionWeight: Option<real>,
    note: Option<string>,
    sourceModel: string,
    rawText: string)

  // ----- extractFloat -----

  /** The characters `/[^\d.-]/g` leaves in place. */
  predicate IsNumeric(c: char) {
    Numbers.IsDigit(c) || c == '.' || c == '-'
  }

  /** `s.replace(/[^\d.-]/g, '')`: every other character is deleted. */
  function KeepNumeric(s: string): (r: string)
    ensures forall c :: c in r <==> c in s && IsNumeric(c)
    ensures multiset(r) <= multiset(s)
  {
    Seqs.Filter(s, IsNumeric)
  }

  /** `extractFloat`: a finite number as it is; a string with its first
      comma read as a point and everything but digits, points and minus
      signs removed, then converted by `Number()`; `null` otherwise. */
  function ExtractFloat(v: Value): (r: Option<real>)
    ensures v.Number? ==> (r.Some? <==> v.n.Finite?) && (r.Some? ==> r.value == v.n.v)
    ensures v.Str? ==> r == Numbers.StringToNumber(KeepNumeric(Text.ReplaceFirstChar(v.s, ',', '.')))
    ensures !v.Number? && !v.Str? ==> r.None?
  {
    match v
    case Number(n) => if n.Finite? then Some(n.v) else None
    case Str(s) => Numbers.StringToNumber(KeepNumeric(Text.ReplaceFirstChar(s, ',', '.')))
    case _ => None
  }

  /** A decimal literal written with digits, a point and an optional minus
      reads as the number it denotes. */
  lemma ExtractFloatDecimal(d: string)
    requires Numbers.IsDecimal(d) && d[0] != '+'
    ensures ExtractFloat(Str(d)) == Some(Numbers.DecimalValue(d))
  {
    DecimalIsNumeric(d);
    NumericKept(d);
    DecimalNumber(d);
  }

  /** Text made of digits, points and minus signs passes the comma
      replacement and the filter unchanged. */
  lemma NumericKept(d: string)
    requires forall k :: 0 <= k < |d| ==> IsNumeric(d[k])
    ensures KeepNumeric(Text.ReplaceFirstChar(d, ',', '.')) == d
  {
    assert ',' !in d;
    Seqs.FilterKeepsAll(d, IsNumeric);
  }

  /** `Number()` reads a decimal literal made of such characters as the
      number it denotes. */
  lemma DecimalNumber(d: string)
    requires Numbers.IsDecimal(d) && |d| > 0
    requires forall k :: 0 <= k < |d| ==> IsNumeric(d[k])
    ensures Numbers.StringToNumber(d) == Some(Numbers.DecimalValue(d))
  {
    assert !Text.IsSpace(d[0]) && !Text.IsSpace(d[|d| - 1]);
    Text.TrimmedIsFixed(d);
  }

  /** Such a literal is made of characters the filter keeps. */
  lemma DecimalIsNumeric(d: string)
    requires Numbers.IsDecimal(d) && d[0] != '+'
    ensures |d| > 0 && forall k :: 0 <= k < |d| ==> IsNumeric(d[k])
  {
    var s := Numbers.SignLength(d);
    var u := d[s..];
    Numbers.UnsignedDecimalShape(u);
    forall k | 0 <= k < |d| ensures IsNumeric(d[k]) {
      if k >= s {
        assert d[k] == u[k - s];
      }
    }
  }

  /** A string without a digit, point or minus reads as 0, because
      `Number('')` is 0, unless it holds a comma: that comma becomes a
      lone point, and `Number('.')` is NaN. */
  lemma ExtractFloatNoNumber(s: string)
    requires forall k :: 0 <= k < |s| ==> !IsNumeric(s[k])
    ensures ExtractFloat(Str(s)) == if ',' in s then None else Some(0.0)
  {
    var t := Text.ReplaceFirstChar(s, ',', '.');
    var r := KeepNumeric(t);
    if ',' in s {
      LonePoint(s);
      PointsReadNaN(r);
    } else {
      assert t == s;
      Seqs.FilterKeepsNone(s, IsNumeric);
    }
  }

  /** Only the point that replaced the comma survives the filter. */
  lemma LonePoint(s: string)
    requires forall k :: 0 <= k < |s| ==> !IsNumeric(s[k])
    requires ',' in s
    ensures var r := KeepNumeric(Text.ReplaceFirstChar(s, ',', '.'));
      |r| > 0 && forall i :: 0 <= i < |r| ==> r[i] == '.'
  {
    var t := Text.ReplaceFirstChar(s, ',', '.');
    var r := KeepNumeric(t);
    forall i | 0 <= i < |r| ensures r[i] == '.' {
      assert r[i] in t;
      var m :| 0 <= m < |t| && t[m] == r[i];
    }
    assert '.' in r by {
      var k :| 0 <= k < |s| && s[k] == ',' && ',' !in s[..k] && t == s[k := '.'];
      assert t[k] == '.';
    }
  }

  /** `Number()` of a run of points is `NaN`. */
  lemma PointsReadNaN(r: string)
    requires |r| > 0 && forall i :: 0 <= i < |r| ==> r[i] == '.'
    ensures Numbers.StringToNumber(r) == None
  {
    PointsAreNotDecimal(r);
    Text.TrimmedIsFixed(r);
  }

  /** A run of points is not a decimal literal. */
  lemma PointsAreNotDecimal(r: string)
    requires |r| > 0 && forall i :: 0 <= i < |r| ==> r[i] == '.'
    ensures !Numbers.IsDecimal(r)
  {
    assert Text.IndexOfChar(r, '.') == Some(0);
    assert Numbers.SignLength(r) == 0;
    assert r[0..] == r;
    if |r| > 1 {
      assert !Numbers.IsDigit(r[1..][0]);
    }
  }

  // ----- normalizeMessageContent -----

  /** The string in `{ text: "..." }`, if there is one. */
  function TextField(v: Value): (r: Option<string>)
    ensures r.Some? <==> v.Object? && "text" in v.fields && v.fields["text"].Str?
    ensures r.Some? ==> r.value == v.fields["text"].s
  {
    if v.Object? && "text" in v.fields && v.fields["text"].Str? then Some(v.fields["text"].s) else None
  }

  /** The text of one chunk of an array content: a string chunk, or the
      `text` of an object chunk; `''` for anything else. */
  function ChunkText(chunk: Value): (r: string)
    ensures chunk.Str? ==> r == chunk.s
    ensures !chunk.Str? ==> r == TextField(chunk).GetOr("")
  {
    match chunk
    case Str(s) => s
    case _ => TextField(chunk).GetOr("")
  }

  predicate NonEmpty(s: string) {
    s != []
  }

  /** `chunks.map(...)`: the text of every chunk. */
  function Texts(chunks: seq<Value>): (r: seq<string>)
    ensures |r| == |chunks|
    ensures forall k :: 0 <= k < |chunks| ==> r[k] == ChunkText(chunks[k])
  {
    seq(|chunks|, k requires 0 <= k < |chunks| => ChunkText(chunks[k]))
  }

  /** The non-empty chunk texts, in order. */
  function Pieces(chunks: seq<Value>): (r: seq<string>)
    ensures forall p :: p in r <==> p != [] && exists k :: 0 <= k < |chunks| && ChunkText(chunks[k]) == p
    ensures |r| <= |chunks|
  {
    var ts := Texts(chunks);
    assert forall p :: p in ts <==> exists k :: 0 <= k < |chunks| && ChunkText(chunks[k]) == p by {
      forall p ensures p in ts ==> exists k :: 0 <= k < |chunks| && ChunkText(chunks[k]) == p {
        if p in ts {
          var k :| 0 <= k < |ts| && ts[k] == p;
        }
      }
    }
    Seqs.Filter(ts, NonEmpty)
  }

  /** `String(x)` of a value that is neither a string nor an array, after
      `?? ''`; `show` is the engine's number-to-string conversion. */
  function Stringify(v: Value, show: Num -> string): (r: string)
    requires !v.Str? && !v.Array?
  {
    match v
    case Undefined => ""
    case Null => ""
    case Bool(b) => if b then "true" else "false"
    case Number(n) => show(n)
    case Object(_) => "[object Object]"
  }

  /** `normalizeMessageContent`: the reply's content as one string. */
  function NormalizeMessageContent(content: Value, show: Num -> string): (r: string)
    ensures content.Str? ==> r == content.s
    ensures content.Array? ==> r == Text.Trim(Text.Join(Pieces(content.items), "\n"))
    ensures TextField(content).Some? ==> r == TextField(content).value
    ensures content.Undefined? || content.Null? ==> r == ""
  {
    match content
    case Str(s) => s
    case Array(chunks) => Text.Trim(Text.Join(Pieces(chunks), "\n"))
    case _ =>
      match TextField(content)
      case Some(t) => t
      case None => Text.Trim(Stringify(content, show))
  }

  /** A string content comes back untouched, while the same text as the
      only chunk of an array, or in an object's `text`, is trimmed only in
      the array case. */
  lemma ContentShapes(t: string, show: Num -> string)
    ensures NormalizeMessageContent(Str(t), show) == t
    ensures NormalizeMessageContent(Object(map["text" := Str(t)]), show) == t
    ensures NormalizeMessageContent(Array([Str(t)]), show) == Text.Trim(t)
    ensures NormalizeMessageContent(Array([Object(map["text" := Str(t)])]), show) == Text.Trim(t)
  {
    var o := Object(map["text" := Str(t)]);
    assert TextField(o) == Some(t);
    OneChunk(Str(t), t, show);
    OneChunk(o, t, show);
  }

  /** An array of one chunk gives the chunk's text, trimmed. */
  lemma OneChunk(c: Value, t: string, show: Num -> string)
    requires ChunkText(c) == t
    ensures NormalizeMessageContent(Array([c]), show) == Text.Trim(t)
  {
    assert Texts([c]) == [t];
    assert Seqs.Filter([t], NonEmpty) == if t == [] then [] else [t];
    if t == [] {
      assert Text.IsBlank(t);
    }
  }

  /** Chunks that give no text, such as empty strings, numbers or objects
      without a string `text`, leave no trace in the result. */
  lemma EmptyChunkIgnored(xs: seq<Value>, c: Value, ys: seq<Value>, show: Num -> string)
    requires ChunkText(c) == []
    ensures NormalizeMessageContent(Array(xs + [c] + ys), show) == NormalizeMessageContent(Array(xs + ys), show)
  {
    PiecesSkipEmpty(xs, c, ys);
    SamePieces(xs + [c] + ys, xs + ys, show);
  }

  lemma PiecesSkipEmpty(xs: seq<Value>, c: Value, ys: seq<Value>)
    requires ChunkText(c) == []
    ensures Pieces(xs + [c] + ys) == Pieces(xs + ys)
  {
    var tx, ty := Texts(xs), Texts(ys);
    assert Texts(xs + [c] + ys) == tx + [[]] + ty;
    assert Texts(xs + ys) == tx + ty;
    SkipEmptyText(tx, ty);
  }

  /** Array contents with the same pieces read the same. */
  lemma SamePieces(a: seq<Value>, b: seq<Value>, show: Num -> string)
    requires Pieces(a) == Pieces(b)
    ensures NormalizeMessageContent(Array(a), show) == NormalizeMessageContent(Array(b), show)
  {
  }

  /** Filtering out empty texts drops an empty one in the middle. */
  lemma SkipEmptyText(tx: seq<string>, ty: seq<string>)
    ensures Seqs.Filter(tx + [[]] + ty, NonEmpty) == Seqs.Filter(tx + ty, NonEmpty)
  {
    Seqs.FilterAppend(tx + [[]], ty, NonEmpty);
    Seqs.FilterAppend(tx, [[]], NonEmpty);
    Seqs.FilterAppend(tx, ty, NonEmpty);
  }

  // ----- parseContent -----

  /** ASCII-only case folding, as a non-Unicode `/i` regular expression
      compares letters. */
  function AsciiLower(c: char): char {
    if 'A' <= c <= 'Z' then (c as int + 32) as char else c
  }

  /** The opening fence ```` ```json ```` at `i`, `json` in any case. */
  predicate OpenerAt(s: string, i: int) {
    && 0 <= i && i + 7 <= |s|
    && s[i] == '`' && s[i + 1] == '`' && s[i + 2] == '`'
    && AsciiLower(s[i + 3]) == 'j' && AsciiLower(s[i + 4]) == 's'
    && AsciiLower(s[i + 5]) == 'o' && AsciiLower(s[i + 6]) == 'n'
  }

  /** The first opening fence at or after `from`. */
  function FindOpener(s: string, from: nat): (r: Option<nat>)
    ensures r.Some? ==> from <= r.value && OpenerAt(s, r.value)
    ensures r.Some? ==> forall j :: from <= j < r.value ==> !OpenerAt(s, j)
    ensures r.None? <==> forall j :: from <= j ==> !OpenerAt(s, j)
    decreases |s| - from
  {
    if from + 7 > |s| then None
    else if OpenerAt(s, from) then Some(from)
    else FindOpener(s, from + 1)
  }

  /** The match `/```json([\s\S]*?)```/i` finds: the first opening fence
      and the first closing ```` ``` ```` after it. */
  predicate FenceAt(s: string, i: int, j: int) {
    && OpenerAt(s, i) && (forall k :: 0 <= k < i ==> !OpenerAt(s, k))
    && i + 7 <= j && Text.OccursAt(s, "```", j)
    && (forall k :: i + 7 <= k < j ==> !Text.OccursAt(s, "```", k))
  }

  /** The captured group of that match, if the text has one. An opening
      fence with no closing one after it gives no match at all, since any
      later opening fence has no closing one after it either. */
  function JsonFence(s: string): (r: Option<string>) {
    match FindOpener(s, 0)
    case None => None
    case Some(i) =>
      match Text.IndexOf(s, "```", i + 7)
      case None => None
      case Some(j) => Some(s[i + 7..j])
  }

  /** The search finds the regular expression's match: there is one
      exactly when some opening fence has a closing one after it, and the
      capture lies between the first opening fence and the first closing
      one after that. */
  lemma JsonFenceMeans(s: string)
    ensures JsonFence(s).Some? <==> exists i, j :: OpenerAt(s, i) && i + 7 <= j && Text.OccursAt(s, "```", j)
    ensures JsonFence(s).Some? ==> exists i, j :: FenceAt(s, i, j) && JsonFence(s).value == s[i + 7..j]
  {
    match FindOpener(s, 0)
    case None =>
    case Some(i) =>
      match Text.IndexOf(s, "```", i + 7)
      case None =>
      case Some(j) =>
        assert FenceAt(s, i, j);
  }

  /** A fence preceded by text without backquotes, around a body without
      backquotes, captures exactly the body. */
  lemma FenceFound(pre: string, body: string, post: string)
    requires '`' !in pre && '`' !in body
    ensures JsonFence(pre + "```json" + body + "```" + post) == Some(body)
  {
    var head := pre + "```json";
    var s := head + body + "```" + post;
    var i, j := |pre|, |head| + |body|;
    assert s[i..i + 7] == "```json" && s[j..j + 3] == "```" && s[i + 7..j] == body;
    forall k | 0 <= k < i ensures s[k] != '`' {
      assert s[k] == pre[k];
    }
    forall k | i + 7 <= k < j ensures s[k] != '`' {
      assert s[k] == body[k - (i + 7)];
    }
    OpenerFirst(s, i);
    CloserFirst(s, i + 7, j);
    FirstFence(s, i, j, body);
  }

  /** The first opening fence and the first closing one after it make
      the match. */
  lemma FirstFence(s: string, i: nat, j: nat, body: string)
    requires FindOpener(s, 0) == Some(i) && Text.IndexOf(s, "```", i + 7) == Some(j)
    requires i + 7 <= j <= |s| && s[i + 7..j] == body
    ensures JsonFence(s) == Some(body)
  {
  }

  /** An opening fence with no backquote before it is the first one. */
  lemma OpenerFirst(s: string, i: nat)
    requires i + 7 <= |s| && s[i..i + 7] == "```json"
    requires forall k :: 0 <= k < i ==> s[k] != '`'
    ensures FindOpener(s, 0) == Some(i)
  {
    assert OpenerAt(s, i) by {
      assert s[i] == s[i..i + 7][0];
      assert s[i + 1] == s[i..i + 7][1];
      assert s[i + 2] == s[i..i + 7][2];
      assert s[i + 3] == s[i..i + 7][3];
      assert s[i + 4] == s[i..i + 7][4];
      assert s[i + 5] == s[i..i + 7][5];
      assert s[i + 6] == s[i..i + 7][6];
    }
  }

  /** A closing fence with no backquote between `from` and it is the
      first one from there. */
  lemma CloserFirst(s: string, from: nat, j: nat)
    requires from <= j && j + 3 <= |s| && s[j..j + 3] == "```"
    requires forall k :: from <= k < j ==> s[k] != '`'
    ensures Text.IndexOf(s, "```", from) == Some(j)
  {
    assert Text.OccursAt(s, "```", j);
    forall k | from <= k < j ensures !Text.OccursAt(s, "```", k) {
      assert s[k] != '`';
    }
  }

  /** The text handed to `JSON.parse`: the trimmed inside of the first
      fence, or the whole trimmed reply when there is none. */
  function RawJson(trimmed: string): (r: string)
    ensures JsonFence(trimmed).None? ==> r == trimmed
    ensures JsonFence(trimmed).Some? ==> r == Text.Trim(JsonFence(trimmed).value)
  {
    match JsonFence(trimmed)
    case None => trimmed
    case Some(inner) => Text.Trim(inner)
  }

  const Unparsed := "Не удалось распарсить ответ модели"

  /** The reading of a parsed, truthy reply. */
  function FromParsed(parsed: Value, providerLabel: string, modelName: string, trimmed: string): (r: MacroInfo)
    ensures r.protein == ExtractFloat(parsed.Get("protein")) && r.fat == ExtractFloat(parsed.Get("fat"))
    ensures r.carbs == ExtractFloat(parsed.Get("carbs")) && r.calories == ExtractFloat(parsed.Get("calories"))
    ensures r.portionWeight == ExtractFloat(parsed.Get("portionWeight"))
    ensures r.note.Some? <==> parsed.Get("note").Str?
    ensures r.note.Some? ==> r.note.value == parsed.Get("note").s
    ensures parsed.Get("model").Str? ==> r.sourceModel == parsed.Get("model").s
    ensures !parsed.Get("model").Str? ==> r.sourceModel == providerLabel + " (" + modelName + ")"
    ensures r.rawText == trimmed
  {
    var note := parsed.Get("note");
    var model := parsed.Get("model");
    MacroInfo(
      ExtractFloat(parsed.Get("protein")),
      ExtractFloat(parsed.Get("fat")),
      ExtractFloat(parsed.Get("carbs")),
      ExtractFloat(parsed.Get("calories")),
      ExtractFloat(parsed.Get("portionWeight")),
      if note.Str? then Some(note.s) else None,
      if model.Str? then model.s else providerLabel + " (" + modelName + ")",
      trimmed)
  }

  /** `parseContent`, with `JSON.parse` as `parse` (`None` when it throws).
      A reply that does not parse, or parses to a falsy value, gives no
      numbers, the fixed note and the provider as source. */
  function ParseContent(content: string, providerLabel: string, modelName: string, parse: string -> Option<Value>): (r: MacroInfo)
    ensures r.rawText == Text.Trim(content)
    ensures var p := parse(RawJson(Text.Trim(content)));
      p.Some? && p.value.Truthy() ==> r == FromParsed(p.value, providerLabel, modelName, Text.Trim(content))
    ensures var p := parse(RawJson(Text.Trim(content)));
      !(p.Some? && p.value.Truthy()) ==>
        r == MacroInfo(None, None, None, None, None, Some(Unparsed), providerLabel, Text.Trim(content))
  {
    var trimmed := Text.Trim(content);
    match parse(RawJson(trimmed))
    case Some(parsed) =>
      if parsed.Truthy() then FromParsed(parsed, providerLabel, modelName, trimmed)
      else MacroInfo(None, None, None, None, None, Some(Unparsed), providerLabel, trimmed)
    case None => MacroInfo(None, None, None, None, None, Some(Unparsed), providerLabel, trimmed)
  }

  /** A fenced reply is read from its fence alone: the text around the
      fence matters only as the raw text kept. */
  lemma FencedReplyParsesBody(pre: string, body: string, post: string, providerLabel: string, modelName: string, parse: string -> Option<Value>)
    requires '`' !in pre && '`' !in body
    requires var s := pre + "```json" + body + "```" + post; Text.Trim(s) == s
    ensures var s := pre + "```json" + body + "```" + post;
      var p := parse(Text.Trim(body));
      && (p.Some? && p.value.Truthy() ==> ParseContent(s, providerLabel, modelName, parse) == FromParsed(p.value, providerLabel, modelName, s))
      && ParseContent(s, providerLabel, modelName, parse).rawText == s
  {
    FenceFound(pre, body, post);
    ReadsFence(pre + "```json" + body + "```" + post, body, providerLabel, modelName, parse);
  }

  /** A trimmed reply whose fence holds `body` is parsed from `body`. */
  lemma ReadsFence(s: string, body: string, providerLabel: string, modelName: string, parse: string -> Option<Value>)
    requires JsonFence(s) == Some(body) && Text.Trim(s) == s
    ensures var p := parse(Text.Trim(body));
      && (p.Some? && p.value.Truthy() ==> ParseContent(s, providerLabel, modelName, parse) == FromParsed(p.value, providerLabel, modelName, s))
      && ParseContent(s, providerLabel, modelName, parse).rawText == s
  {
  }

  // ----- fetchMacroInfo -----

  /** The fixed instructions, trimmed. */
  const SystemPrompt :=
    "Ты нутрициолог. Для любого продукта оценивай содержание белков, жиров, углеводов и калорий на 100 г продукта.\n"
    + "Дополнительно оценивай примерный вес одной стандартной порции или штуки в граммах (portionWeight). Если у продукта нет стандартной штуки, ставь null.\n"
    + "Отвечай строго в формате JSON:\n"
    + "{\n"
    + "  \"protein\": number | null,\n"
    + "  \"fat\": number | null,\n"
    + "  \"carbs\": number | null,\n"
    + "  \"calories\": number | null,\n"
    + "  \"portionWeight\": number | null,\n"
    + "  \"note\": string\n"
    + "}\n"
    + "Если нет данных, ставь null."

  /** `buildUserPrompt` */
  function UserPrompt(productName: string): string {
    "Продукт: \"" + productName + "\". Оцени БЖУ и калории на 100 г по заданному JSON формату."
  }

  /** The one message sent to the model: the fixed instructions `system`,
      a blank line, then the question about the product. */
  function Prompt(system: string, productName: string): string {
    system + "\n\n" + UserPrompt(productName)
  }

  const EmptyName := "Введите название продукта"
  const RequestFailed := "Ошибка при запросе к Hugging Face: "
  const Provider := "HuggingFace"

  /** The prompt sent, if any, and what the lookup resolves or rejects
      with. */
  datatype Fetch = Fetch(sent: Option<string>, result: Result<MacroInfo, string>)

  /** `fetchMacroInfo`. `reply` is the content of the first choice of the
      chat completion, or the message it was rejected with; `modelName` is
      the configured model id as the template prints it. */
  function FetchMacroInfo(productName: string, modelName: string, reply: Result<Value, string>, parse: string -> Option<Value>, show: Num -> string): Fetch {
    FetchWith(SystemPrompt, productName, modelName, reply, parse, show)
  }

  /** The lookup for any fixed instructions `system`: what follows does not
      depend on their wording. */
  function FetchWith(system: string, productName: string, modelName: string, reply: Result<Value, string>, parse: string -> Option<Value>, show: Num -> string): (r: Fetch)
    ensures Text.IsBlank(productName) <==> r.sent.None?
    ensures Text.IsBlank(productName) ==> r.result == Failure(EmptyName)
    ensures !Text.IsBlank(productName) ==> r.sent == Some(Prompt(system, productName))
    ensures !Text.IsBlank(productName) && reply.Failure? ==> r.result == Failure(RequestFailed + reply.error)
    ensures !Text.IsBlank(productName) && reply.Success? ==>
      var cleaned := Text.Trim(Text.ReplaceFirst(NormalizeMessageContent(reply.value, show), Prompt(system, productName), ""));
      var parsed := ParseContent(cleaned, Provider, modelName, parse);
      && r.result.Success?
      && r.result.value == parsed.(note := Some(parsed.note.GetOr("Данные для \"" + productName + "\"")))
  {
    if Text.IsBlank(productName) then Fetch(None, Failure(EmptyName))
    else
      var prompt := Prompt(system, productName);
      match reply
      case Failure(e) => Fetch(Some(prompt), Failure(RequestFailed + e))
      case Success(content) =>
        var cleaned := Text.Trim(Text.ReplaceFirst(NormalizeMessageContent(content, show), prompt, ""));
        var parsed := ParseContent(cleaned, Provider, modelName, parse);
        Fetch(Some(prompt), Success(parsed.(note := Some(parsed.note.GetOr("Данные для \"" + productName + "\"")))))
  }

  /** A successful lookup always carries a note, and its raw text is the
      cleaned reply. */
  lemma FetchAlwaysNotes(system: string, productName: string, modelName: string, reply: Result<Value, string>, parse: string -> Option<Value>, show: Num -> string)
    requires FetchWith(system, productName, modelName, reply, parse, show).result.Success?
    ensures FetchWith(system, productName, modelName, reply, parse, show).result.value.note.Some?
    ensures var raw := FetchWith(system, productName, modelName, reply, parse, show).result.value.rawText;
      Text.Trim(raw) == raw
  {
    var cleaned := Text.Trim(Text.ReplaceFirst(NormalizeMessageContent(reply.value, show), Prompt(system, productName), ""));
    Text.TrimIdempotent(cleaned);
  }

  /** A model that echoes the prompt before a fenced answer is read from
      the fence, and the echo is not kept. */
  lemma EchoedPromptIsDropped(system: string, productName: string, modelName: string, body: string, parse: string -> Option<Value>, show: Num -> string)
    requires !Text.IsBlank(productName) && '`' !in body
    ensures var fenced := "```json" + body + "```";
      var r := FetchWith(system, productName, modelName, Success(Str(Prompt(system, productName) + "\n" + fenced)), parse, show);
      && r.result.Success?
      && r.result.value.rawText == fenced
  {
    var fenced := "```json" + body + "```";
    FenceTrimmed(fenced);
    EchoCleaned(Prompt(system, productName), fenced, show);
  }

  /** Cleaning a reply that repeats the prompt on a line of its own leaves
      the rest of the reply. */
  lemma EchoCleaned(prompt: string, fenced: string, show: Num -> string)
    requires Text.Trim(fenced) == fenced
    ensures Text.Trim(Text.ReplaceFirst(NormalizeMessageContent(Str(prompt + "\n" + fenced), show), prompt, "")) == fenced
  {
    var reply := prompt + "\n" + fenced;
    assert NormalizeMessageContent(Str(reply), show) == reply;
    ReplaceLeading(prompt, "\n", fenced);
    Text.TrimSkipsLeadingSpace('\n', fenced);
  }

  /** Replacing a text's own beginning removes it. */
  lemma ReplaceLeading(p: string, sep: string, rest: string)
    ensures Text.ReplaceFirst(p + sep + rest, p, "") == sep + rest
  {
    var s := p + sep + rest;
    assert s[..|p|] == p;
    assert Text.OccursAt(s, p, 0);
    assert Text.IndexOf(s, p, 0) == Some(0);
    assert s[|p|..] == sep + rest;
  }

  /** A fenced answer has nothing to trim. */
  lemma FenceTrimmed(fenced: string)
    requires |fenced| > 0 && fenced[0] == '`' && fenced[|fenced| - 1] == '`'
    ensures Text.Trim(fenced) == fenced
  {
    Text.TrimmedIsFixed(fenced);
  }
}
