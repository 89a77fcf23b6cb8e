/** The static-file and backup HTTP handler of the Python server, as a
    pure function from the backup file's text (None when the file does not
    exist) and a request to a response and the file's next text. JSON
    parsing and serialisation, the clock, the file's byte size and URL
    parsing are parameters. */
module BackupServer {
  import opened Wrappers
  import opened Protocol
  import opened NumberText

  datatype Request = Get(path: string) | Post(path: string, body: string) | Options(path: string)

  /** What was written after the headers. */
  datatype Body = NoBody | Text(text: string) | Json(value: JsValue)

  datatype Response =
    | Response(status: int, headers: seq<(string, string)>, body: Body)
    | StaticFile(path: string)

  datatype Handled = Handled(response: Response, file: Option<string>)

  const JsonHeaders: seq<(string, string)> :=
    [("Content-Type", "application/json"), ("Access-Control-Allow-Origin", "*")]

  const CorsHeaders: seq<(string, string)> :=
    [("Access-Control-Allow-Origin", "*"), ("Access-Control-Allow-Methods", "GET, POST, OPTIONS"),
     ("Access-Control-Allow-Headers", "Content-Type")]

  /** `json.dumps({'world': [], 'timestamp': 0, 'author': None})`. */
  const EmptyBackup: string := "{\"world\": [], \"timestamp\": 0, \"author\": null}"

  // ---------------------------------------------------------------------
  // Python semantics the handler leans on

  /** `type(v).__name__` for a value `json.loads` produced; a number
      without a fractional part is taken to be an `int`. */
  function TypeName(v: JsValue): string {
    match v
    case Null => "NoneType"
    case Bool(_) => "bool"
    case Num(n) => if n == n.Floor as real then "int" else "float"
    case NaN => "float"
    case Str(_) => "str"
    case Arr(_, _) => "list"
    case Obj(_, _) => "dict"
    case Undef => "NoneType"
  }

  /** `len(v)`, or the text of the `TypeError` it raises. */
  function PyLen(v: JsValue): (r: Result<nat>)
    ensures r.Ok? <==> v.Str? || v.Arr? || v.Obj?
    ensures v.Str? ==> r == Ok(|v.s|)
    ensures v.Arr? ==> r == Ok(|v.items|)
    ensures v.Obj? ==> r == Ok(|v.fields|)
  {
    match v
    case Str(s) => Ok(|s|)
    case Arr(_, xs) => Ok(|xs|)
    case Obj(_, fs) => Ok(|fs|)
    case _ => Err("object of type '" + TypeName(v) + "' has no len()")
  }

  /** `d.get(k, default)` on a dict: JSON null stays None. The value is
      the one of the first property with the key. */
  function DictGet(fs: seq<Field>, k: string, default: JsValue): (r: JsValue)
    ensures forall i :: 0 <= i < |fs| && fs[i].key == k && k !in Keys(fs[..i]) ==> r == fs[i].value
    ensures (forall i :: 0 <= i < |fs| ==> fs[i].key != k) ==> r == default
  {
    if k in Keys(fs) then
      assert forall i :: 0 <= i < |fs| && fs[i].key == k && k !in Keys(fs[..i]) ==> Lookup(fs, k) == fs[i].value by {
        forall i | 0 <= i < |fs| && fs[i].key == k && k !in Keys(fs[..i]) ensures Lookup(fs, k) == fs[i].value {
          LookupFirst(fs, k, i);
        }
      }
      Lookup(fs, k)
    else default
  }

  /** `get` on a key the dict has is `obj[key]`. */
  lemma DictGetPresent(fs: seq<Field>, k: string, default: JsValue)
    requires k in Keys(fs)
    ensures DictGet(fs, k, default) == Lookup(fs, k)
  {
  }

  /** `d[k] = v`: an existing key keeps its place, a new one goes last. */
  function SetKey(fs: seq<Field>, k: string, v: JsValue): (r: seq<Field>)
    ensures |r| == if k in Keys(fs) then |fs| else |fs| + 1
  {
    if |fs| == 0 then [Field(k, v)]
    else if fs[0].key == k then [Field(k, v)] + fs[1..]
    else [fs[0]] + SetKey(fs[1..], k, v)
  }

  lemma {:induction false} SetKeyLookup(fs: seq<Field>, k: string, v: JsValue, j: string)
    ensures Lookup(SetKey(fs, k, v), k) == v
    ensures j != k ==> Lookup(SetKey(fs, k, v), j) == Lookup(fs, j)
    ensures j != k ==> (j in Keys(SetKey(fs, k, v)) <==> j in Keys(fs))
    ensures k in Keys(SetKey(fs, k, v))
  {
    if |fs| > 0 && fs[0].key != k {
      SetKeyLookup(fs[1..], k, v, j);
      assert Keys(fs) == [fs[0].key] + Keys(fs[1..]);
      assert Keys(SetKey(fs, k, v)) == [fs[0].key] + Keys(SetKey(fs[1..], k, v));
    } else if |fs| > 0 {
      assert Keys(fs) == [fs[0].key] + Keys(fs[1..]);
      assert Keys(SetKey(fs, k, v)) == [k] + Keys(fs[1..]);
    }
  }

  /** `size / 1024` to two decimals, in hundredths: the nearest whole
      number of hundredths, ties to even (the division is exact in binary
      floating point, and `format` rounds the exact value). */
  function Hundredths(size: nat): (h: nat)
    ensures 256 * h - 128 <= 25 * size <= 256 * h + 128
    ensures 25 * size == 256 * h + 128 || 25 * size == 256 * h - 128 ==> h % 2 == 0
  {
    var x := 25 * size;
    var q := x / 256;
    var r := x % 256;
    RoundHalfEven(x, q, r);
    if r > 128 || (r == 128 && q % 2 == 1) then q + 1 else q
  }

  /** Rounding `x / 256` to the nearest whole number, ties to even, from
      its quotient and remainder. */
  lemma RoundHalfEven(x: int, q: nat, r: int)
    requires x == 256 * q + r && 0 <= r < 256
    ensures var h := if r > 128 || (r == 128 && q % 2 == 1) then q + 1 else q;
      && 256 * h - 128 <= x <= 256 * h + 128
      && (x == 256 * h + 128 || x == 256 * h - 128 ==> h % 2 == 0)
  {
    if r == 128 && q % 2 == 1 {
      assert (q + 1) % 2 == 0;
    }
  }

  /** Two-digit text of a number below 100. */
  function TwoDigits(n: nat): (s: string)
    requires n < 100
    ensures |s| == 2 && '0' <= s[0] <= '9' && '0' <= s[1] <= '9'
    ensures ParseDecimal(s) == n
  {
    var s := [DigitChar(n / 10), DigitChar(n % 10)];
    assert s[..1][..0] == [] && s[..1] == [s[0]];
    assert ParseDecimal(s[..1]) == n / 10;
    assert s[1] as int - '0' as int == n % 10;
    s
  }

  /** `f"{size / 1024:.2f} KB"`. */
  function FileSizeText(size: nat): string {
    var h := Hundredths(size);
    ToDecimal(h / 100) + "." + TwoDigits(h % 100) + " KB"
  }

  lemma FileSizeExamples()
    ensures FileSizeText(0) == "0.00 KB"
    ensures FileSizeText(1024) == "1.00 KB"
    ensures FileSizeText(1536) == "1.50 KB"
  {
    assert DigitChar(0) == '0' && DigitChar(5) == '5';
    assert ToDecimal(0) == "0" && ToDecimal(1) == "1";
    FileSizeAt(0, 0, "0", "00");
    FileSizeAt(1024, 100, "1", "00");
    FileSizeAt(1536, 150, "1", "50");
  }

  /** The text of a size whose hundredths of a kilobyte are `h`. */
  lemma FileSizeAt(size: nat, h: nat, whole: string, frac: string)
    requires Hundredths(size) == h && ToDecimal(h / 100) == whole && TwoDigits(h % 100) == frac
    ensures FileSizeText(size) == whole + "." + frac + " KB"
  {
  }

  // ---------------------------------------------------------------------
  // The handler

  function Ok200(body: Body): Response {
    Response(200, JsonHeaders, body)
  }

  /** The `/api/stats` body. A parse failure, a top level that is not a
      dict or a `world` without a length raises after the headers went
      out, so the body stays empty. */
  function StatsBody(text: string, parse: string -> Result<JsValue>, fileSize: string): (b: Body)
    ensures b.Json? <==> parse(text).Ok? && parse(text).value.Obj?
                         && PyLen(DictGet(parse(text).value.fields, "world", Arr(0, []))).Ok?
    ensures !b.Json? ==> b == NoBody
  {
    match parse(text)
    case Err(_) => NoBody
    case Ok(backup) =>
      if !backup.Obj? then NoBody
      else
        match PyLen(DictGet(backup.fields, "world", Arr(0, [])))
        case Err(_) => NoBody
        case Ok(n) =>
          Json(StatsRecord(n, DictGet(backup.fields, "savedAt", Null),
                           DictGet(backup.fields, "author", Null), fileSize))
  }

  /** The stats dict `{exists, entities, savedAt, author, fileSize}`. */
  function StatsRecord(entities: nat, savedAt: JsValue, author: JsValue, fileSize: string): (v: JsValue)
    ensures v.Obj?
    ensures Prop(v, "exists") == Bool(true) && Prop(v, "entities") == Num(entities as real)
    ensures Prop(v, "savedAt") == savedAt && Prop(v, "author") == author
    ensures Prop(v, "fileSize") == Str(fileSize)
  {
    var fs := StatsFields(entities, savedAt, author, fileSize);
    StatsFieldsRead(entities, savedAt, author, fileSize);
    Obj(0, fs)
  }

  function StatsFields(entities: nat, savedAt: JsValue, author: JsValue, fileSize: string): seq<Field>
  {
    [Field("exists", Bool(true)), Field("entities", Num(entities as real)),
     Field("savedAt", savedAt), Field("author", author), Field("fileSize", Str(fileSize))]
  }

  lemma StatsFieldsRead(entities: nat, savedAt: JsValue, author: JsValue, fileSize: string)
    ensures var fs := StatsFields(entities, savedAt, author, fileSize);
      && Lookup(fs, "exists") == Bool(true) && Lookup(fs, "entities") == Num(entities as real)
      && Lookup(fs, "savedAt") == savedAt && Lookup(fs, "author") == author
      && Lookup(fs, "fileSize") == Str(fileSize)
  {
    var fs := StatsFields(entities, savedAt, author, fileSize);
    LookupAt(fs, 0, "exists");
    StatsEntitiesRead(fs, entities);
    StatsSavedAtRead(fs, savedAt);
    StatsAuthorRead(fs, author);
    StatsFileSizeRead(fs, fileSize);
  }

  lemma StatsFileSizeRead(fs: seq<Field>, fileSize: string)
    requires |fs| == 5 && fs[0].key == "exists" && fs[1].key == "entities" && fs[2].key == "savedAt"
    requires fs[3].key == "author" && fs[4] == Field("fileSize", Str(fileSize))
    ensures Lookup(fs, "fileSize") == Str(fileSize)
  {
    assert "exists"[0] != "fileSize"[0] && "entities"[0] != "fileSize"[0];
    assert "savedAt"[0] != "fileSize"[0] && "author"[0] != "fileSize"[0];
    LookupAt(fs, 4, "fileSize");
  }

  lemma StatsEntitiesRead(fs: seq<Field>, entities: nat)
    requires |fs| == 5 && fs[0].key == "exists" && fs[1] == Field("entities", Num(entities as real))
    ensures Lookup(fs, "entities") == Num(entities as real)
  {
    assert "exists"[1] != "entities"[1];
    LookupAt(fs, 1, "entities");
  }

  lemma StatsSavedAtRead(fs: seq<Field>, savedAt: JsValue)
    requires |fs| == 5 && fs[0].key == "exists" && fs[1].key == "entities" && fs[2] == Field("savedAt", savedAt)
    ensures Lookup(fs, "savedAt") == savedAt
  {
    assert "exists"[0] != "savedAt"[0] && "entities"[0] != "savedAt"[0];
    LookupAt(fs, 2, "savedAt");
  }

  lemma StatsAuthorRead(fs: seq<Field>, author: JsValue)
    requires |fs| == 5 && fs[0].key == "exists" && fs[1].key == "entities" && fs[2].key == "savedAt"
    requires fs[3] == Field("author", author)
    ensures Lookup(fs, "author") == author
  {
    assert "exists"[0] != "author"[0] && "entities"[0] != "author"[0] && "savedAt"[0] != "author"[0];
    LookupAt(fs, 3, "author");
  }

  /** The saved document: the parsed body with `savedAt` set to the
      server time. */
  function Stamped(data: JsValue, nowIso: string): JsValue
    requires data.Obj?
  {
    Obj(data.ref, SetKey(data.fields, "savedAt", Str(nowIso)))
  }

  function Failure(error: string): Response {
    Response(500, JsonHeaders, Json(Obj(0, [Field("success", Bool(false)), Field("error", Str(error))])))
  }

  const Saved: Response :=
    Ok200(Json(Obj(0, [Field("success", Bool(true)), Field("message", Str("Backup saved"))])))

  /** `do_POST` on `/api/backup`. Everything from parsing to the log line
      is inside the `try`: a failure answers 500 with the error's text. The
      file is written before the log line measures `world`, so a `world`
      without a length is saved and still answered 500. */
  function PostBackup(file: Option<string>, body: string, parse: string -> Result<JsValue>,
                      dump: JsValue -> string, nowIso: string): (h: Handled)
    ensures h.response.Response? && (h.response.status == 200 || h.response.status == 500)
    ensures parse(body).Err? ==> h == Handled(Failure(parse(body).error), file)
    ensures h.file != file ==>
      parse(body).Ok? && parse(body).value.Obj? && h.file == Some(dump(Stamped(parse(body).value, nowIso)))
  {
    match parse(body)
    case Err(e) => Handled(Failure(e), file)
    case Ok(data) =>
      if data.Arr? then Handled(Failure("list indices must be integers or slices, not str"), file)
      else if !data.Obj? then
        Handled(Failure("'" + TypeName(data) + "' object does not support item assignment"), file)
      else
        var saved := Stamped(data, nowIso);
        var written := Some(dump(saved));
        match PyLen(DictGet(saved.fields, "world", Arr(0, [])))
        case Err(e) => Handled(Failure(e), written)
        case Ok(_) => Handled(Saved, written)
  }

  /** `do_GET`, `do_POST` and `do_OPTIONS`. GET routes on the parsed
      path (`pathOf` stands for `urlparse(path).path`), POST on the raw
      request path. */
  function Handle(file: Option<string>, req: Request, pathOf: string -> string,
                  parse: string -> Result<JsValue>, dump: JsValue -> string,
                  nowIso: string, sizeOf: string -> nat): (h: Handled)
    ensures !req.Post? ==> h.file == file
    ensures req.Post? && req.path != "/api/backup" ==> h == Handled(Response(404, [], NoBody), file)
    ensures req.Options? ==> h.response == Response(200, CorsHeaders, NoBody)
  {
    match req
    case Get(path) =>
      var p := pathOf(path);
      if p == "/api/backup" then
        match file
        case Some(text) => Handled(Ok200(Text(text)), file)
        case None => Handled(Ok200(Text(EmptyBackup)), file)
      else if p == "/api/stats" then
        match file
        case Some(text) => Handled(Ok200(StatsBody(text, parse, FileSizeText(sizeOf(text)))), file)
        case None => Handled(Ok200(Json(Obj(0, [Field("exists", Bool(false))]))), file)
      else Handled(StaticFile(path), file)
    case Post(path, body) =>
      if path == "/api/backup" then PostBackup(file, body, parse, dump, nowIso)
      else Handled(Response(404, [], NoBody), file)
    case Options(_) => Handled(Response(200, CorsHeaders, NoBody), file)
  }

  // ---------------------------------------------------------------------
  // Properties

  /** Without a backup file, GET /api/backup answers the empty world and
      creates no file. */
  lemma LoadWithoutFile(path: string, pathOf: string -> string, parse: string -> Result<JsValue>,
                        dump: JsValue -> string, nowIso: string, sizeOf: string -> nat)
    requires pathOf(path) == "/api/backup"
    ensures Handle(None, Get(path), pathOf, parse, dump, nowIso, sizeOf)
         == Handled(Response(200, JsonHeaders, Text(EmptyBackup)), None)
  {
  }

  /** A successful save followed by a load returns the saved document's
      text, whose `savedAt` is the server time and whose other keys are the
      posted ones. */
  lemma SaveThenLoad(file: Option<string>, body: string, path: string, pathOf: string -> string,
                     parse: string -> Result<JsValue>, dump: JsValue -> string,
                     nowIso: string, sizeOf: string -> nat, k: string)
    requires pathOf(path) == "/api/backup"
    requires parse(body).Ok? && parse(body).value.Obj?
    ensures var h := Handle(file, Post("/api/backup", body), pathOf, parse, dump, nowIso, sizeOf);
      var data := parse(body).value;
      var saved := Stamped(data, nowIso);
      h.file == Some(dump(saved)) &&
      Handle(h.file, Get(path), pathOf, parse, dump, nowIso, sizeOf).response
        == Response(200, JsonHeaders, Text(dump(saved))) &&
      Lookup(saved.fields, "savedAt") == Str(nowIso) &&
      (k != "savedAt" ==> Lookup(saved.fields, k) == Lookup(data.fields, k) &&
                          (k in Keys(saved.fields) <==> k in Keys(data.fields)))
  {
    SetKeyLookup(parse(body).value.fields, "savedAt", Str(nowIso), k);
  }

  /** The stats of a readable document echo its `savedAt`. */
  lemma StatsEchoSavedAt(text: string, parse: string -> Result<JsValue>, fileSize: string, v: JsValue)
    requires parse(text) == Ok(v) && v.Obj?
    requires PyLen(DictGet(v.fields, "world", Arr(0, []))).Ok?
    ensures StatsBody(text, parse, fileSize).Json?
    ensures Prop(StatsBody(text, parse, fileSize).value, "exists") == Bool(true)
    ensures Prop(StatsBody(text, parse, fileSize).value, "savedAt") == DictGet(v.fields, "savedAt", Null)
    ensures Prop(StatsBody(text, parse, fileSize).value, "entities")
         == Num(PyLen(DictGet(v.fields, "world", Arr(0, []))).value as real)
  {
  }

  /** What `/api/stats` reports for a readable dict whose `world` is a
      list (or absent, which reads as the empty list): `exists` true, the
      list's length as `entities`, the document's `savedAt` and `author`
      (None when missing), and the size text. */
  lemma StatsReport(text: string, parse: string -> Result<JsValue>, fileSize: string, v: JsValue)
    requires parse(text) == Ok(v) && v.Obj?
    requires DictGet(v.fields, "world", Arr(0, [])).Arr?
    ensures var b := StatsBody(text, parse, fileSize);
      && b.Json?
      && Prop(b.value, "exists") == Bool(true)
      && Prop(b.value, "entities") == Num(|DictGet(v.fields, "world", Arr(0, [])).items| as real)
      && Prop(b.value, "savedAt") == DictGet(v.fields, "savedAt", Null)
      && Prop(b.value, "author") == DictGet(v.fields, "author", Null)
      && Prop(b.value, "fileSize") == Str(fileSize)
  {
  }

  /** Without a backup file, GET /api/stats answers `{exists: false}`. */
  lemma StatsWithoutFile(path: string, pathOf: string -> string, parse: string -> Result<JsValue>,
                         dump: JsValue -> string, nowIso: string, sizeOf: string -> nat)
    requires pathOf(path) == "/api/stats"
    ensures Handle(None, Get(path), pathOf, parse, dump, nowIso, sizeOf)
         == Handled(Response(200, JsonHeaders, Json(Obj(0, [Field("exists", Bool(false))]))), None)
  {
    assert "/api/stats" != "/api/backup" by { assert "/api/stats"[5] != "/api/backup"[5]; }
  }

  /** The first property with a key is the one read. */
  lemma {:induction false} LookupAt(fs: seq<Field>, i: nat, k: string)
    requires i < |fs| && fs[i].key == k
    requires forall j :: 0 <= j < i ==> fs[j].key != k
    ensures Lookup(fs, k) == fs[i].value
  {
    if i > 0 {
      LookupAt(fs[1..], i - 1, k);
    }
  }

  /** An object body whose `world` has a length is saved and answered
      with the success message. */
  lemma SavedWhenWorldMeasured(file: Option<string>, body: string, parse: string -> Result<JsValue>,
                               dump: JsValue -> string, nowIso: string)
    requires parse(body).Ok? && parse(body).value.Obj?
    requires PyLen(DictGet(parse(body).value.fields, "world", Arr(0, []))).Ok?
    ensures PostBackup(file, body, parse, dump, nowIso)
         == Handled(Saved, Some(dump(Stamped(parse(body).value, nowIso))))
  {
    var data := parse(body).value;
    SetKeyLookup(data.fields, "savedAt", Str(nowIso), "world");
    assert DictGet(Stamped(data, nowIso).fields, "world", Arr(0, [])) == DictGet(data.fields, "world", Arr(0, []));
  }

  /** GET /api/stats with a file serves the stats of its text. */
  lemma GetStatsServed(text: string, path: string, pathOf: string -> string,
                       parse: string -> Result<JsValue>, dump: JsValue -> string,
                       nowIso: string, sizeOf: string -> nat)
    requires pathOf(path) == "/api/stats"
    ensures Handle(Some(text), Get(path), pathOf, parse, dump, nowIso, sizeOf)
         == Handled(Ok200(StatsBody(text, parse, FileSizeText(sizeOf(text)))), Some(text))
  {
  }

  /** The stats of a saved document report the save time, provided the
      serialiser and the parser round-trip it and its `world` has a
      length. */
  lemma SaveThenStats(file: Option<string>, body: string, path: string, pathOf: string -> string,
                      parse: string -> Result<JsValue>, dump: JsValue -> string,
                      nowIso: string, sizeOf: string -> nat)
    requires pathOf(path) == "/api/stats"
    requires parse(body).Ok? && parse(body).value.Obj?
    requires parse(dump(Stamped(parse(body).value, nowIso))) == Ok(Stamped(parse(body).value, nowIso))
    requires PyLen(DictGet(parse(body).value.fields, "world", Arr(0, []))).Ok?
    ensures var h := Handle(file, Post("/api/backup", body), pathOf, parse, dump, nowIso, sizeOf);
      var r := Handle(h.file, Get(path), pathOf, parse, dump, nowIso, sizeOf).response;
      h.response == Saved &&
      r.Response? && r.body.Json? && Prop(r.body.value, "savedAt") == Str(nowIso) &&
      Prop(r.body.value, "exists") == Bool(true)
  {
    var data := parse(body).value;
    var saved := Stamped(data, nowIso);
    SavedWhenWorldMeasured(file, body, parse, dump, nowIso);
    SetKeyLookup(data.fields, "savedAt", Str(nowIso), "world");
    assert DictGet(saved.fields, "savedAt", Null) == Str(nowIso);
    var text := dump(saved);
    StatsEchoSavedAt(text, parse, FileSizeText(sizeOf(text)), saved);
    var h := Handle(file, Post("/api/backup", body), pathOf, parse, dump, nowIso, sizeOf);
    assert h == Handled(Saved, Some(text));
    GetStatsServed(text, path, pathOf, parse, dump, nowIso, sizeOf);
  }

  /** A body `json.loads` rejects answers 500 with the parser's message
      and leaves the file as it was: the file is opened only after
      parsing. */
  lemma BadJsonLeavesFile(file: Option<string>, body: string, pathOf: string -> string,
                          parse: string -> Result<JsValue>, dump: JsValue -> string,
                          nowIso: string, sizeOf: string -> nat)
    requires parse(body).Err?
    ensures Handle(file, Post("/api/backup", body), pathOf, parse, dump, nowIso, sizeOf)
         == Handled(Response(500, JsonHeaders,
                             Json(Obj(0, [Field("success", Bool(false)), Field("error", Str(parse(body).error))]))),
                    file)
  {
  }

  /** Setting a new key on a one-property dict appends it. */
  lemma SetKeyAppends(f: Field, k: string, v: JsValue)
    requires f.key != k
    ensures SetKey([f], k, v) == [f, Field(k, v)]
  {
    assert [f][1..] == [];
  }

  /** Python's message for `len(5)`. */
  lemma NoLenOfFive()
    ensures PyLen(Num(5.0)) == Err("object of type 'int' has no len()")
  {
    assert TypeName(Num(5.0)) == "int";
  }

  /** A document whose `world` has no length is saved, yet the answer is a
      500: the log line that measures it runs after the write. */
  lemma SavedButReportedFailed(file: Option<string>, body: string, pathOf: string -> string,
                               parse: string -> Result<JsValue>, dump: JsValue -> string,
                               nowIso: string, sizeOf: string -> nat)
    requires parse(body) == Ok(Obj(0, [Field("world", Num(5.0))]))
    ensures var h := Handle(file, Post("/api/backup", body), pathOf, parse, dump, nowIso, sizeOf);
      h.file == Some(dump(Obj(0, [Field("world", Num(5.0)), Field("savedAt", Str(nowIso))]))) &&
      h.response == Failure("object of type 'int' has no len()")
  {
    var fs := [Field("world", Num(5.0))];
    var two := [Field("world", Num(5.0)), Field("savedAt", Str(nowIso))];
    assert "world" != "savedAt" by { assert "world"[0] != "savedAt"[0]; }
    SetKeyAppends(fs[0], "savedAt", Str(nowIso));
    var saved := Stamped(Obj(0, fs), nowIso);
    assert saved == Obj(0, two);
    assert DictGet(two, "world", Arr(0, [])) == Num(5.0) by {
      LookupAt(two, 0, "world");
      assert Keys(two)[0] == "world";
    }
    NoLenOfFive();
    assert PostBackup(file, body, parse, dump, nowIso)
        == Handled(Failure("object of type 'int' has no len()"), Some(dump(saved)));
  }

  /** GET strips the query string but POST compares the raw path, so the
      same URL with a query loads the backup but cannot save it. */
  lemma QueryOnlyReachesGet(file: Option<string>, body: string, pathOf: string -> string,
                            parse: string -> Result<JsValue>, dump: JsValue -> string,
                            nowIso: string, sizeOf: string -> nat)
    requires pathOf("/api/backup?x") == "/api/backup"
    ensures Handle(file, Get("/api/backup?x"), pathOf, parse, dump, nowIso, sizeOf).response
         == Response(200, JsonHeaders, Text(file.GetOr(EmptyBackup)))
    ensures Handle(file, Post("/api/backup?x", body), pathOf, parse, dump, nowIso, sizeOf)
         == Handled(Response(404, [], NoBody), file)
  {
  }
}
