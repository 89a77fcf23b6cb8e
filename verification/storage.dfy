/** The snapshot and journal stores: signed snapshots are written as JSON
    documents under `<root>/snapshots/<worldId>/<clusterId>/`, both as a
    timestamped file and as `latest.json`; journal entries are appended as
    JSON lines to `<root>/journals/<worldId>/<clusterId>.jsonl`. World and
    cluster ids are checked against `^[a-zA-Z0-9_-]{1,64}$` before any path
    is built from them. */
module Storage {
  import opened Wrappers
  import opened NumberText
  import opened Protocol
  import opened SignedPayload

  // ---------------------------------------------------------------------
  // Identifiers

  predicate IdChar(c: char) {
    'a' <= c <= 'z' || 'A' <= c <= 'Z' || '0' <= c <= '9' || c == '_' || c == '-'
  }

  /** The test `assertSafeId` applies. */
  predicate SafeId(s: string) {
    1 <= |s| <= 64 && forall i :: 0 <= i < |s| ==> IdChar(s[i])
  }

  /** `assertSafeId`: the error is named after the checked field. */
  function CheckId(name: string, value: string): (r: Result<()>)
    ensures r.Ok? <==> SafeId(value)
    ensures r.Err? ==> r.error == name + "_invalid"
  {
    if SafeId(value) then Ok(()) else Err(name + "_invalid")
  }

  /** The world id is checked before the cluster id. */
  function CheckIds(worldId: string, clusterId: string): (r: Result<()>)
    ensures r.Ok? <==> SafeId(worldId) && SafeId(clusterId)
    ensures !SafeId(worldId) ==> r == Err("worldId_invalid")
    ensures SafeId(worldId) && !SafeId(clusterId) ==> r == Err("clusterId_invalid")
  {
    match CheckId("worldId", worldId)
    case Err(e) => Err(e)
    case Ok(_) => CheckId("clusterId", clusterId)
  }

  // ---------------------------------------------------------------------
  // POSIX paths

  /** An absolute path as its segments below "/". */
  type Path = seq<string>

  /** A segment that `path.join` keeps as it is. */
  predicate Plain(s: string) {
    s != "" && s != "." && s != ".." && forall i :: 0 <= i < |s| ==> s[i] != '/'
  }

  /** What `path.resolve` returns: no empty, "." or ".." segments. */
  predicate Resolved(p: Path) {
    forall i :: 0 <= i < |p| ==> Plain(p[i])
  }

  /** A path argument cut at each '/'. */
  function Split(s: string): (r: seq<string>)
    ensures |r| >= 1
  {
    if |s| == 0 then [""]
    else if s[0] == '/' then [""] + Split(s[1..])
    else
      var rest := Split(s[1..]);
      [[s[0]] + rest[0]] + rest[1..]
  }

  lemma {:induction false} SplitPlain(s: string)
    requires forall i :: 0 <= i < |s| ==> s[i] != '/'
    ensures Split(s) == [s]
  {
    if |s| > 0 {
      SplitPlain(s[1..]);
      assert [s[0]] + s[1..] == s;
    }
  }

  /** The segments of several path arguments, in order. */
  function Segments(parts: seq<string>): seq<string> {
    if |parts| == 0 then [] else Split(parts[0]) + Segments(parts[1..])
  }

  /** Walking segments from a directory: "" and "." stay, ".." goes up
      (never above "/"), anything else goes down. */
  function Walk(dir: Path, segs: seq<string>): Path
    decreases |segs|
  {
    if |segs| == 0 then dir
    else if segs[0] == "" || segs[0] == "." then Walk(dir, segs[1..])
    else if segs[0] == ".." then Walk(if |dir| == 0 then dir else dir[..|dir| - 1], segs[1..])
    else Walk(dir + [segs[0]], segs[1..])
  }

  /** `path.join(root, ...parts)` for a resolved root. */
  function Join(root: Path, parts: seq<string>): Path {
    Walk(root, Segments(parts))
  }

  /** Joining plain segments appends them unchanged. */
  lemma {:induction false} JoinPlain(root: Path, parts: seq<string>)
    requires forall i :: 0 <= i < |parts| ==> Plain(parts[i])
    ensures Join(root, parts) == root + parts
  {
    SegmentsPlain(parts);
    WalkPlain(root, parts);
  }

  lemma {:induction false} SegmentsPlain(parts: seq<string>)
    requires forall i :: 0 <= i < |parts| ==> Plain(parts[i])
    ensures Segments(parts) == parts
  {
    if |parts| > 0 {
      SplitPlain(parts[0]);
      SegmentsPlain(parts[1..]);
      assert [parts[0]] + parts[1..] == parts;
    }
  }

  lemma {:induction false} WalkPlain(dir: Path, segs: seq<string>)
    requires forall i :: 0 <= i < |segs| ==> Plain(segs[i])
    ensures Walk(dir, segs) == dir + segs
    decreases |segs|
  {
    if |segs| > 0 {
      assert Plain(segs[0]);
      WalkPlain(dir + [segs[0]], segs[1..]);
      assert (dir + [segs[0]]) + segs[1..] == dir + segs;
    }
  }

  lemma SafeIdPlain(s: string)
    requires SafeId(s)
    ensures Plain(s)
  {
    assert s != "." && s != ".." by {
      assert !IdChar('.');
      assert IdChar(s[0]);
    }
  }

  /** Without the id check a world id of ".." would climb out of the
      snapshot directory: joining it twice lands on the parent of the data
      directory. */
  lemma DotDotEscapes(root: Path)
    requires |root| > 0
    ensures Join(root, ["snapshots", "..", ".."]) == root[..|root| - 1]
    ensures !SafeId("..")
  {
    assert Split("snapshots") == ["snapshots"] by { SplitPlain("snapshots"); }
    assert Split("..") == [".."] by { SplitPlain(".."); }
    var segs := ["snapshots", "..", ".."];
    assert Segments(segs) == segs by {
      assert Segments(segs[2..]) == [".."];
      assert Segments(segs[1..]) == ["..", ".."];
    }
    assert Walk(root, segs) == Walk(root + ["snapshots"], segs[1..]);
    assert Walk(root + ["snapshots"], segs[1..]) == Walk(root, segs[2..]);
    assert !IdChar('.');
  }

  // ---------------------------------------------------------------------
  // The disk

  /** A sha256 digest in lower-case hex. */
  predicate HexChar(c: char) {
    '0' <= c <= '9' || 'a' <= c <= 'f'
  }

  type Hex = s: string | forall i :: 0 <= i < |s| ==> HexChar(s[i])

  /** One line of serialised JSON: `JSON.stringify` escapes every newline. */
  type Line = s: string | forall i :: 0 <= i < |s| ==> s[i] != '\n'

  /** The files the stores write: JSON documents (None when the text is
      not valid JSON) and JSON-lines journals. */
  datatype Disk = Disk(docs: map<Path, Option<JsValue>>, journals: map<Path, string>)

  /** Reading each property of a four-property object with distinct keys. */
  lemma FourFields(fs: seq<Field>)
    requires |fs| == 4
    requires fs[0].key != fs[1].key && fs[0].key != fs[2].key && fs[0].key != fs[3].key
    requires fs[1].key != fs[2].key && fs[1].key != fs[3].key && fs[2].key != fs[3].key
    ensures forall i :: 0 <= i < 4 ==> Lookup(fs, fs[i].key) == fs[i].value
  {
    forall i | 0 <= i < 4
      ensures Lookup(fs, fs[i].key) == fs[i].value
    {
      LookupUnique(fs, i);
    }
  }

  /** The `StoredSnapshot` / `StoredJournalEntry` record. */
  function StoredValue(kind: string, storedAt: int, digest: Hex, signed: JsValue): (v: JsValue)
    ensures v.Obj?
    ensures Prop(v, "kind") == Str(kind) && Prop(v, "storedAt") == Num(storedAt as real)
    ensures Prop(v, "digest") == Str(digest) && Prop(v, "signed") == signed
  {
    var fs := [Field("kind", Str(kind)), Field("storedAt", Num(storedAt as real)),
               Field("digest", Str(digest)), Field("signed", signed)];
    FourFields(fs);
    Obj(0, fs)
  }

  /** The object a snapshot's digest is taken over: issuer, signature, tick
      and payload in that order, and nothing else of the body. */
  function DigestInput(signed: JsValue): (v: JsValue)
    ensures v.Obj? && Keys(v.fields) == ["issuer", "signature", "tick", "payload"]
  {
    Obj(0, [Field("issuer", Prop(signed, "issuer")), Field("signature", Prop(signed, "signature")),
            Field("tick", Prop(signed, "tick")), Field("payload", Prop(signed, "payload"))])
  }

  function ClusterDir(root: Path, worldId: string, clusterId: string): (r: Result<Path>)
    ensures r.Ok? <==> SafeId(worldId) && SafeId(clusterId)
  {
    match CheckIds(worldId, clusterId)
    case Err(e) => Err(e)
    case Ok(_) => Ok(Join(root, ["snapshots", worldId, clusterId]))
  }

  function SnapFileName(storedAt: int, digest: Hex): string {
    "snap-" + IntText(storedAt) + "-" + digest + ".json"
  }

  lemma SnapFileNamePlain(storedAt: int, digest: Hex)
    ensures Plain(SnapFileName(storedAt, digest))
  {
    var t := IntText(storedAt);
    assert forall i :: 0 <= i < |t| ==> t[i] != '/' by {
      var d := ToDecimal(if storedAt < 0 then -storedAt else storedAt);
      assert t == d || t == "-" + d;
    }
    var name := SnapFileName(storedAt, digest);
    assert name[0] == 's';
  }

  datatype SaveResult = SaveResult(storedAt: int, digest: Hex, latestPath: Path)
  datatype Saved = Saved(disk: Disk, result: Result<SaveResult>)

  /** `saveSignedSnapshot`: `now` is the server clock and `digestOf`
      stands for sha256-hex of the JSON text of its argument. Pruning of
      old snapshot files is not modelled. */
  function SaveSignedSnapshot(d: Disk, root: Path, signed: JsValue, now: int,
                              digestOf: JsValue -> Hex): (r: Saved)
    requires HasShape(signed)
    ensures r.result.Ok? <==> SafeId(WorldId(signed)) && SafeId(ClusterId(signed))
    ensures r.result.Err? ==> r.disk == d
    ensures r.result.Ok? ==>
      r.result.value.storedAt == now && r.result.value.digest == digestOf(DigestInput(signed))
  {
    var w := WorldId(signed);
    var c := ClusterId(signed);
    match CheckIds(w, c)
    case Err(e) => Saved(d, Err(e))
    case Ok(_) =>
      var digest := digestOf(DigestInput(signed));
      var dir := Join(root, ["snapshots", w, c]);
      var stored := StoredValue("snapshot", now, digest, signed);
      var file := Join(dir, [SnapFileName(now, digest)]);
      var latest := Join(dir, ["latest.json"]);
      Saved(d.(docs := d.docs[file := Some(stored)][latest := Some(stored)]),
            Ok(SaveResult(now, digest, latest)))
  }

  /** The `try` block of `readLatestSnapshot`: a missing or unparsable
      file, or a document that is falsy or not of kind "snapshot", reads as
      null. The record is returned without further checks. */
  function ParseLatest(docs: map<Path, Option<JsValue>>, latest: Path): (r: Option<JsValue>)
    ensures r.Some? ==> latest in docs && docs[latest] == r && Prop(r.value, "kind") == Str("snapshot")
  {
    if latest !in docs || docs[latest].None? then None
    else
      var parsed := docs[latest].value;
      if !Truthy(parsed) || Prop(parsed, "kind") != Str("snapshot") then None
      else Some(parsed)
  }

  /** `readLatestSnapshot`: unsafe ids throw before any file is read. */
  function ReadLatestSnapshot(d: Disk, root: Path, worldId: string, clusterId: string): (r: Result<Option<JsValue>>)
    ensures r.Err? <==> !(SafeId(worldId) && SafeId(clusterId))
    ensures r.Ok? && r.value.Some? ==> Prop(r.value.value, "kind") == Str("snapshot")
  {
    match ClusterDir(root, worldId, clusterId)
    case Err(e) => Err(e)
    case Ok(dir) => Ok(ParseLatest(d.docs, Join(dir, ["latest.json"])))
  }

  lemma LiteralsPlain()
    ensures Plain("snapshots") && Plain("journals") && Plain("latest.json")
  {
  }

  lemma ClusterPaths(root: Path, w: string, c: string, digest: Hex, now: int)
    requires SafeId(w) && SafeId(c)
    ensures Join(root, ["snapshots", w, c]) == root + ["snapshots", w, c]
    ensures Join(root + ["snapshots", w, c], ["latest.json"]) == root + ["snapshots", w, c] + ["latest.json"]
    ensures Join(root + ["snapshots", w, c], [SnapFileName(now, digest)])
         == root + ["snapshots", w, c] + [SnapFileName(now, digest)]
  {
    SafeIdPlain(w);
    SafeIdPlain(c);
    LiteralsPlain();
    JoinPlain(root, ["snapshots", w, c]);
    JoinPlain(root + ["snapshots", w, c], ["latest.json"]);
    SnapFileNamePlain(now, digest);
    JoinPlain(root + ["snapshots", w, c], [SnapFileName(now, digest)]);
  }

  /** With safe ids a save writes the same record to
      `snap-<storedAt>-<digest>.json` and to `latest.json` of the cluster's
      directory, and changes nothing else. */
  lemma SaveWrites(d: Disk, root: Path, signed: JsValue, now: int, digestOf: JsValue -> Hex)
    requires HasShape(signed) && SafeId(WorldId(signed)) && SafeId(ClusterId(signed))
    ensures var digest := digestOf(DigestInput(signed));
      var stored := StoredValue("snapshot", now, digest, signed);
      var dir := root + ["snapshots", WorldId(signed), ClusterId(signed)];
      SaveSignedSnapshot(d, root, signed, now, digestOf) ==
        Saved(d.(docs := d.docs[dir + [SnapFileName(now, digest)] := Some(stored)][dir + ["latest.json"] := Some(stored)]),
              Ok(SaveResult(now, digest, dir + ["latest.json"])))
  {
    ClusterPaths(root, WorldId(signed), ClusterId(signed), digestOf(DigestInput(signed)), now);
  }

  /** With safe ids a restore reads the cluster's `latest.json`. */
  lemma ReadsLatest(d: Disk, root: Path, w: string, c: string)
    requires SafeId(w) && SafeId(c)
    ensures ReadLatestSnapshot(d, root, w, c) == Ok(ParseLatest(d.docs, root + ["snapshots", w, c] + ["latest.json"]))
  {
    ClusterPaths(root, w, c, "", 0);
  }

  /** A saved snapshot is what the next restore of its cluster returns,
      and the timestamped file holds the same record. */
  lemma SaveThenRead(d: Disk, root: Path, signed: JsValue, now: int, digestOf: JsValue -> Hex)
    requires HasShape(signed) && SafeId(WorldId(signed)) && SafeId(ClusterId(signed))
    ensures var r := SaveSignedSnapshot(d, root, signed, now, digestOf);
      var stored := StoredValue("snapshot", now, digestOf(DigestInput(signed)), signed);
      var dir := root + ["snapshots", WorldId(signed), ClusterId(signed)];
      r.result.Ok? &&
      r.result.value.latestPath == dir + ["latest.json"] &&
      dir + [SnapFileName(now, r.result.value.digest)] in r.disk.docs &&
      r.disk.docs[dir + [SnapFileName(now, r.result.value.digest)]] == Some(stored) &&
      ReadLatestSnapshot(r.disk, root, WorldId(signed), ClusterId(signed)) == Ok(Some(stored))
  {
    var w, c := WorldId(signed), ClusterId(signed);
    var digest := digestOf(DigestInput(signed));
    var stored := StoredValue("snapshot", now, digest, signed);
    SaveWrites(d, root, signed, now, digestOf);
    var r := SaveSignedSnapshot(d, root, signed, now, digestOf);
    ReadsLatest(r.disk, root, w, c);
    var latest := root + ["snapshots", w, c] + ["latest.json"];
    assert r.disk.docs[latest] == Some(stored);
    assert ParseLatest(r.disk.docs, latest) == Some(stored);
  }

  /** A save writes only inside its own cluster's directory. */
  lemma SaveStaysInCluster(d: Disk, root: Path, signed: JsValue, now: int,
                           digestOf: JsValue -> Hex, p: Path)
    requires HasShape(signed)
    requires p in SaveSignedSnapshot(d, root, signed, now, digestOf).disk.docs
    requires p !in d.docs || SaveSignedSnapshot(d, root, signed, now, digestOf).disk.docs[p] != d.docs[p]
    ensures |p| == |root| + 4
    ensures p[..|root| + 3] == root + ["snapshots", WorldId(signed), ClusterId(signed)]
  {
    var w := WorldId(signed);
    var c := ClusterId(signed);
    if SafeId(w) && SafeId(c) {
      SaveWrites(d, root, signed, now, digestOf);
      var dir := root + ["snapshots", w, c];
      var name := SnapFileName(now, digestOf(DigestInput(signed)));
      assert p == dir + [name] || p == dir + ["latest.json"];
      assert (dir + [name])[..|root| + 3] == dir;
      assert (dir + ["latest.json"])[..|root| + 3] == dir;
    }
  }

  lemma OtherClusterPath(root: Path, w: string, c: string, sw: string, sc: string, a: string, b: string)
    requires w != sw || c != sc
    ensures root + ["snapshots", w, c] + [a] != root + ["snapshots", sw, sc] + [b]
  {
    var x := root + ["snapshots", w, c] + [a];
    var y := root + ["snapshots", sw, sc] + [b];
    assert x[|root| + 1] == w && x[|root| + 2] == c;
    assert y[|root| + 1] == sw && y[|root| + 2] == sc;
  }

  lemma ParseLatestFrame(docs: map<Path, Option<JsValue>>, p: Path, v: Option<JsValue>, latest: Path)
    requires latest != p
    ensures ParseLatest(docs[p := v], latest) == ParseLatest(docs, latest)
  {
  }

  /** Saving into one cluster leaves what every other cluster restores. */
  lemma SaveLeavesOtherClusters(d: Disk, root: Path, signed: JsValue, now: int,
                                digestOf: JsValue -> Hex, w: string, c: string)
    requires HasShape(signed)
    requires w != WorldId(signed) || c != ClusterId(signed)
    ensures ReadLatestSnapshot(SaveSignedSnapshot(d, root, signed, now, digestOf).disk, root, w, c)
         == ReadLatestSnapshot(d, root, w, c)
  {
    var sw := WorldId(signed);
    var sc := ClusterId(signed);
    var r := SaveSignedSnapshot(d, root, signed, now, digestOf);
    if !(SafeId(sw) && SafeId(sc)) {
      assert r.disk == d;
    } else if SafeId(w) && SafeId(c) {
      var digest := digestOf(DigestInput(signed));
      var stored := StoredValue("snapshot", now, digest, signed);
      var dir := root + ["snapshots", sw, sc];
      var mine := root + ["snapshots", w, c] + ["latest.json"];
      SaveWrites(d, root, signed, now, digestOf);
      ReadsLatest(d, root, w, c);
      ReadsLatest(r.disk, root, w, c);
      OtherClusterPath(root, w, c, sw, sc, "latest.json", "latest.json");
      OtherClusterPath(root, w, c, sw, sc, "latest.json", SnapFileName(now, digest));
      ParseLatestFrame(d.docs[dir + [SnapFileName(now, digest)] := Some(stored)], dir + ["latest.json"], Some(stored), mine);
      ParseLatestFrame(d.docs, dir + [SnapFileName(now, digest)], Some(stored), mine);
    }
  }

  /** Unsafe ids are refused before anything is written, world id first. */
  lemma SaveRejectsUnsafeIds(d: Disk, root: Path, signed: JsValue, now: int, digestOf: JsValue -> Hex)
    requires HasShape(signed)
    ensures !SafeId(WorldId(signed)) ==>
      SaveSignedSnapshot(d, root, signed, now, digestOf) == Saved(d, Err("worldId_invalid"))
    ensures SafeId(WorldId(signed)) && !SafeId(ClusterId(signed)) ==>
      SaveSignedSnapshot(d, root, signed, now, digestOf) == Saved(d, Err("clusterId_invalid"))
  {
  }

  // ---------------------------------------------------------------------
  // The journal

  /** The text of a JSON-lines file holding `lines` in order. */
  function JsonLines(lines: seq<Line>): string {
    if |lines| == 0 then "" else JsonLines(lines[..|lines| - 1]) + lines[|lines| - 1] + "\n"
  }

  /** The first newline of `s`, or `|s|` when there is none. */
  function LineEnd(s: string): (i: nat)
    ensures i <= |s|
    ensures forall j :: 0 <= j < i ==> s[j] != '\n'
    ensures i < |s| ==> s[i] == '\n'
  {
    if |s| == 0 || s[0] == '\n' then 0 else 1 + LineEnd(s[1..])
  }

  /** A reader of the journal: the text cut into its newline-terminated
      lines (a trailing unterminated line is kept too). */
  function ReadLines(s: string): seq<string>
    decreases |s|
  {
    if |s| == 0 then []
    else
      var i := LineEnd(s);
      [s[..i]] + ReadLines(if i < |s| then s[i + 1..] else [])
  }

  lemma {:induction false} LineEndOf(l: Line, rest: string)
    ensures LineEnd(l + "\n" + rest) == |l|
  {
    if |l| > 0 {
      assert (l + "\n" + rest)[1..] == l[1..] + "\n" + rest;
      LineEndOf(l[1..], rest);
    }
  }

  lemma LineFirst(l: Line, rest: string)
    ensures ReadLines(l + "\n" + rest) == [l] + ReadLines(rest)
  {
    var s := l + "\n" + rest;
    LineEndOf(l, rest);
    assert s[..|l|] == l;
    assert s[|l| + 1..] == rest;
  }

  /** `JsonLines(lines)` with the first line split off. */
  function LinesFrom(lines: seq<Line>): string
  {
    if |lines| == 0 then "" else lines[0] + "\n" + LinesFrom(lines[1..])
  }

  lemma {:induction false} LinesFromAppend(lines: seq<Line>, l: Line)
    ensures LinesFrom(lines + [l]) == LinesFrom(lines) + l + "\n"
  {
    if |lines| > 0 {
      LinesFromAppend(lines[1..], l);
      assert (lines + [l])[1..] == lines[1..] + [l];
    }
  }

  lemma {:induction false} JsonLinesFrom(lines: seq<Line>)
    ensures JsonLines(lines) == LinesFrom(lines)
  {
    if |lines| > 0 {
      JsonLinesFrom(lines[..|lines| - 1]);
      LinesFromAppend(lines[..|lines| - 1], lines[|lines| - 1]);
      assert lines[..|lines| - 1] + [lines[|lines| - 1]] == lines;
    }
  }

  /** Reading a journal back gives its lines in the order written. */
  lemma {:induction false} ReadJsonLines(lines: seq<Line>)
    ensures ReadLines(JsonLines(lines)) == lines
  {
    JsonLinesFrom(lines);
    ReadLinesFrom(lines);
  }

  lemma {:induction false} ReadLinesFrom(lines: seq<Line>)
    ensures ReadLines(LinesFrom(lines)) == lines
  {
    if |lines| > 0 {
      LineFirst(lines[0], LinesFrom(lines[1..]));
      assert LinesFrom(lines) == lines[0] + "\n" + LinesFrom(lines[1..]);
      ReadLinesFrom(lines[1..]);
      assert [lines[0]] + lines[1..] == lines;
    }
  }

  function JournalFile(root: Path, worldId: string, clusterId: string): (r: Result<Path>)
    ensures r.Ok? <==> SafeId(worldId) && SafeId(clusterId)
  {
    match CheckIds(worldId, clusterId)
    case Err(e) => Err(e)
    case Ok(_) => Ok(Join(root, ["journals", worldId, clusterId + ".jsonl"]))
  }

  datatype Appended = Appended(disk: Disk, result: Result<()>)

  /** `appendEntry`: the digest covers the whole signed body; `json`
      stands for `JSON.stringify`. */
  function AppendEntry(d: Disk, root: Path, signed: JsValue, now: int,
                       digestOf: JsValue -> Hex, json: JsValue -> Line): (r: Appended)
    requires HasShape(signed)
    ensures r.result.Ok? <==> SafeId(WorldId(signed)) && SafeId(ClusterId(signed))
    ensures r.result.Err? ==> r.disk == d
    ensures r.disk.docs == d.docs
  {
    match JournalFile(root, WorldId(signed), ClusterId(signed))
    case Err(e) => Appended(d, Err(e))
    case Ok(file) =>
      var entry := StoredValue("journal", now, digestOf(signed), signed);
      var before := if file in d.journals then d.journals[file] else "";
      Appended(d.(journals := d.journals[file := before + json(entry) + "\n"]), Ok(()))
  }

  /** With safe ids an append writes to `<clusterId>.jsonl` in the world's
      journal directory, and only there. */
  lemma AppendWrites(d: Disk, root: Path, signed: JsValue, now: int,
                     digestOf: JsValue -> Hex, json: JsValue -> Line)
    requires HasShape(signed) && SafeId(WorldId(signed)) && SafeId(ClusterId(signed))
    ensures var file := root + ["journals", WorldId(signed), ClusterId(signed) + ".jsonl"];
      var entry := StoredValue("journal", now, digestOf(signed), signed);
      var before := if file in d.journals then d.journals[file] else "";
      AppendEntry(d, root, signed, now, digestOf, json)
        == Appended(d.(journals := d.journals[file := before + json(entry) + "\n"]), Ok(()))
  {
    JournalPath(root, WorldId(signed), ClusterId(signed));
  }

  lemma JournalPath(root: Path, w: string, c: string)
    requires SafeId(w) && SafeId(c)
    ensures JournalFile(root, w, c) == Ok(root + ["journals", w, c + ".jsonl"])
  {
    SafeIdPlain(w);
    assert Plain(c + ".jsonl") by {
      SafeIdPlain(c);
      assert (c + ".jsonl")[0] == c[0];
    }
    LiteralsPlain();
    JoinPlain(root, ["journals", w, c + ".jsonl"]);
  }

  /** Appending one line to a JSON-lines text adds it after the others. */
  lemma AppendLine(lines: seq<Line>, l: Line)
    ensures ReadLines(JsonLines(lines) + l + "\n") == lines + [l]
  {
    assert JsonLines(lines + [l]) == JsonLines(lines) + l + "\n" by {
      assert (lines + [l])[..|lines|] == lines;
    }
    ReadJsonLines(lines + [l]);
  }

  /** An append adds exactly one line, the serialised entry, after the
      lines already in the journal, and touches no other journal. */
  lemma AppendAddsOneLine(d: Disk, root: Path, signed: JsValue, now: int,
                          digestOf: JsValue -> Hex, json: JsValue -> Line, lines: seq<Line>)
    requires HasShape(signed) && SafeId(WorldId(signed)) && SafeId(ClusterId(signed))
    requires var file := root + ["journals", WorldId(signed), ClusterId(signed) + ".jsonl"];
      if file in d.journals then d.journals[file] == JsonLines(lines) else lines == []
    ensures var file := root + ["journals", WorldId(signed), ClusterId(signed) + ".jsonl"];
      var r := AppendEntry(d, root, signed, now, digestOf, json);
      var entry := StoredValue("journal", now, digestOf(signed), signed);
      r.disk.journals.Keys == d.journals.Keys + {file} &&
      ReadLines(r.disk.journals[file]) == lines + [json(entry)] &&
      forall p :: p in d.journals && p != file ==> r.disk.journals[p] == d.journals[p]
  {
    var file := root + ["journals", WorldId(signed), ClusterId(signed) + ".jsonl"];
    var entry := StoredValue("journal", now, digestOf(signed), signed);
    AppendWrites(d, root, signed, now, digestOf, json);
    assert (if file in d.journals then d.journals[file] else "") == JsonLines(lines);
    AppendLine(lines, json(entry));
  }

  /** The journal's digest covers every property of the body, while a
      snapshot's covers only the four signed fields. */
  lemma DigestScopes(a: JsValue, b: JsValue, digestOf: JsValue -> Hex)
    requires Prop(a, "issuer") == Prop(b, "issuer") && Prop(a, "signature") == Prop(b, "signature")
    requires Prop(a, "tick") == Prop(b, "tick") && Prop(a, "payload") == Prop(b, "payload")
    ensures digestOf(DigestInput(a)) == digestOf(DigestInput(b))
  {
  }
}
