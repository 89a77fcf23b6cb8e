/** The three persistence routes: writing a signed snapshot, restoring the
    latest snapshot of a cluster, and appending a signed journal entry.
    Each route consults the rate limiter first, then checks the body's
    shape (400), then its signature (401), and only then touches the
    store. The limiter, the body reader, the query-string parser, the
    signature check and the clock are parameters. */
module Persistence {
  import opened Wrappers
  import opened Protocol
  import opened SignedPayload
  import opened Storage

  /** The limiter's verdict for one key. */
  datatype Limit = Allowed | Limited(retryAfterMs: int)

  /** `Math.ceil(retryAfterMs / 1000)`, the `retry-after` header. */
  function RetryAfterSeconds(ms: int): (s: int)
    ensures 1000 * (s - 1) < ms <= 1000 * s
  {
    -((-ms) / 1000)
  }

  /** Each route is limited under its own key per client address. */
  function LimitKey(clientIp: string, route: string): string {
    clientIp + ":persistence:" + route
  }

  /** What a route does with the response: a JSON reply (with an optional
      `retry-after` header), or an error thrown to the server's error
      handler — an `HttpError` carries its status, any other error none. */
  datatype Outcome =
    | Sent(status: int, retryAfter: Option<int>, body: JsValue)
    | Thrown(httpStatus: Option<int>, error: string)

  datatype Served = Served(disk: Disk, outcome: Outcome)

  function RateLimited(ms: int): (o: Outcome)
    ensures o.Sent? && o.status == 429 && o.retryAfter == Some(RetryAfterSeconds(ms))
  {
    Sent(429, Some(RetryAfterSeconds(ms)),
         Obj(0, [Field("ok", Bool(false)), Field("error", Str("rate_limited")),
                 Field("retryAfterMs", Num(ms as real))]))
  }

  /** `writeSnapshot`. `body` is what `readJsonBody` produced or threw;
      `verify(issuer, signature, message)` stands for the detached
      signature check over the JSON text of `message`. */
  function WriteSnapshot(d: Disk, root: Path, clientIp: string, limit: string -> Limit,
                         body: Result<JsValue>, verify: (string, string, JsValue) -> bool,
                         now: int, digestOf: JsValue -> Hex): (r: Served)
    ensures limit(LimitKey(clientIp, "snapshot")).Limited? ==>
      r == Served(d, RateLimited(limit(LimitKey(clientIp, "snapshot")).retryAfterMs))
    ensures r.disk != d ==>
      limit(LimitKey(clientIp, "snapshot")).Allowed? && body.Ok? && IsSignedSnapshot(body.value) &&
      verify(Issuer(body.value), Signature(body.value), Canonical(body.value))
    ensures body.Ok? && !IsSignedSnapshot(body.value) && limit(LimitKey(clientIp, "snapshot")).Allowed? ==>
      r == Served(d, Thrown(Some(400), "invalid_request"))
  {
    match limit(LimitKey(clientIp, "snapshot"))
    case Limited(ms) => Served(d, RateLimited(ms))
    case Allowed =>
      match body
      case Err(e) => Served(d, Thrown(None, e))
      case Ok(v) =>
        if !IsSignedSnapshot(v) then Served(d, Thrown(Some(400), "invalid_request"))
        else
          SignedSnapshotAccepts(v);
          if !verify(Issuer(v), Signature(v), Canonical(v)) then
            Served(d, Thrown(Some(401), "invalid_signature"))
          else
            var saved := SaveSignedSnapshot(d, root, v, now, digestOf);
            match saved.result
            case Err(e) => Served(saved.disk, Thrown(None, e))
            case Ok(res) =>
              Served(saved.disk, Sent(200, None,
                Obj(0, [Field("ok", Bool(true)), Field("storedAt", Num(res.storedAt as real)),
                        Field("digest", Str(res.digest))])))
  }

  /** `restoreLatest`. `query(name)` stands for
      `url.searchParams.get(name)`; the route never writes. */
  function RestoreLatest(d: Disk, root: Path, clientIp: string, limit: string -> Limit,
                         query: string -> Option<string>): (o: Outcome)
    ensures limit(LimitKey(clientIp, "restore")).Limited? ==>
      o == RateLimited(limit(LimitKey(clientIp, "restore")).retryAfterMs)
    ensures (limit(LimitKey(clientIp, "restore")).Allowed? &&
             (Blank(query("worldId")) || Blank(query("clusterId")))) ==>
      o == Thrown(Some(400), "invalid_request")
    ensures o.Sent? && o.status == 200 ==>
      query("worldId").Some? && query("clusterId").Some? &&
      ReadLatestSnapshot(d, root, query("worldId").value, query("clusterId").value).Ok? &&
      ReadLatestSnapshot(d, root, query("worldId").value, query("clusterId").value).value.Some?
  {
    match limit(LimitKey(clientIp, "restore"))
    case Limited(ms) => RateLimited(ms)
    case Allowed =>
      var worldId := query("worldId");
      var clusterId := query("clusterId");
      if Blank(worldId) || Blank(clusterId) then Thrown(Some(400), "invalid_request")
      else
        match ReadLatestSnapshot(d, root, worldId.value, clusterId.value)
        case Err(e) => Thrown(None, e)
        case Ok(None) => Sent(404, None, Obj(0, [Field("ok", Bool(false)), Field("error", Str("no_snapshot"))]))
        case Ok(Some(latest)) =>
          Sent(200, None, Obj(0, [Field("ok", Bool(true)), Field("storedAt", Prop(latest, "storedAt")),
                                  Field("digest", Prop(latest, "digest")),
                                  Field("signed", Prop(latest, "signed"))]))
  }

  /** `appendJournal`: `json` stands for `JSON.stringify`. */
  function AppendJournal(d: Disk, root: Path, clientIp: string, limit: string -> Limit,
                         body: Result<JsValue>, verify: (string, string, JsValue) -> bool,
                         now: int, digestOf: JsValue -> Hex, json: JsValue -> Line): (r: Served)
    ensures limit(LimitKey(clientIp, "journal")).Limited? ==>
      r == Served(d, RateLimited(limit(LimitKey(clientIp, "journal")).retryAfterMs))
    ensures r.disk != d ==>
      limit(LimitKey(clientIp, "journal")).Allowed? && body.Ok? && IsSignedJournalEntry(body.value) &&
      verify(Issuer(body.value), Signature(body.value), Canonical(body.value))
    ensures r.disk.docs == d.docs
  {
    match limit(LimitKey(clientIp, "journal"))
    case Limited(ms) => Served(d, RateLimited(ms))
    case Allowed =>
      match body
      case Err(e) => Served(d, Thrown(None, e))
      case Ok(v) =>
        if !IsSignedJournalEntry(v) then Served(d, Thrown(Some(400), "invalid_request"))
        else
          SameTest(v);
          SignedSnapshotAccepts(v);
          if !verify(Issuer(v), Signature(v), Canonical(v)) then
            Served(d, Thrown(Some(401), "invalid_signature"))
          else
            var appended := AppendEntry(d, root, v, now, digestOf, json);
            match appended.result
            case Err(e) => Served(appended.disk, Thrown(None, e))
            case Ok(_) => Served(appended.disk, Sent(200, None, Obj(0, [Field("ok", Bool(true))])))
  }

  /** A snapshot the write route accepts is what the restore route then
      returns for its cluster: the same signed body, the server's
      timestamp and the digest the write reported. */
  lemma WriteThenRestore(d: Disk, root: Path, clientIp: string, limit: string -> Limit,
                         v: JsValue, verify: (string, string, JsValue) -> bool,
                         now: int, digestOf: JsValue -> Hex, query: string -> Option<string>)
    requires limit(LimitKey(clientIp, "snapshot")).Allowed? && limit(LimitKey(clientIp, "restore")).Allowed?
    requires IsSignedSnapshot(v)
    requires HasShape(v) && verify(Issuer(v), Signature(v), Canonical(v))
    requires SafeId(WorldId(v)) && SafeId(ClusterId(v))
    requires query("worldId") == Some(WorldId(v)) && query("clusterId") == Some(ClusterId(v))
    ensures var r := WriteSnapshot(d, root, clientIp, limit, Ok(v), verify, now, digestOf);
      var digest := digestOf(DigestInput(v));
      r.outcome == Sent(200, None, Obj(0, [Field("ok", Bool(true)), Field("storedAt", Num(now as real)),
                                           Field("digest", Str(digest))])) &&
      RestoreLatest(r.disk, root, clientIp, limit, query)
        == Sent(200, None, Obj(0, [Field("ok", Bool(true)), Field("storedAt", Num(now as real)),
                                   Field("digest", Str(digest)), Field("signed", v)]))
  {
    SaveThenRead(d, root, v, now, digestOf);
  }

  /** An accepted journal entry adds exactly one line to its cluster's
      journal, after the lines already there. */
  lemma AppendJournalAddsLine(d: Disk, root: Path, clientIp: string, limit: string -> Limit,
                              v: JsValue, verify: (string, string, JsValue) -> bool,
                              now: int, digestOf: JsValue -> Hex, json: JsValue -> Line,
                              lines: seq<Line>)
    requires limit(LimitKey(clientIp, "journal")).Allowed?
    requires IsSignedJournalEntry(v)
    requires HasShape(v) && verify(Issuer(v), Signature(v), Canonical(v))
    requires SafeId(WorldId(v)) && SafeId(ClusterId(v))
    requires var file := root + ["journals", WorldId(v), ClusterId(v) + ".jsonl"];
      if file in d.journals then d.journals[file] == JsonLines(lines) else lines == []
    ensures var file := root + ["journals", WorldId(v), ClusterId(v) + ".jsonl"];
      var r := AppendJournal(d, root, clientIp, limit, Ok(v), verify, now, digestOf, json);
      r.outcome == Sent(200, None, Obj(0, [Field("ok", Bool(true))])) &&
      file in r.disk.journals &&
      ReadLines(r.disk.journals[file]) == lines + [json(StoredValue("journal", now, digestOf(v), v))]
  {
    AppendAddsOneLine(d, root, v, now, digestOf, json, lines);
  }
  /** A well-formed body whose signature does not check is refused with a
      401 by both writing routes, and nothing is stored. */
  lemma BadSignatureRefused(d: Disk, root: Path, clientIp: string, limit: string -> Limit,
                            v: JsValue, verify: (string, string, JsValue) -> bool,
                            now: int, digestOf: JsValue -> Hex, json: JsValue -> Line)
    requires IsSignedSnapshot(v)
    requires HasShape(v) && !verify(Issuer(v), Signature(v), Canonical(v))
    ensures limit(LimitKey(clientIp, "snapshot")).Allowed? ==>
      WriteSnapshot(d, root, clientIp, limit, Ok(v), verify, now, digestOf)
        == Served(d, Thrown(Some(401), "invalid_signature"))
    ensures limit(LimitKey(clientIp, "journal")).Allowed? ==>
      AppendJournal(d, root, clientIp, limit, Ok(v), verify, now, digestOf, json)
        == Served(d, Thrown(Some(401), "invalid_signature"))
  {
    SameTest(v);
  }
}
