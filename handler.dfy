/** The macro's entry points `handler_prime` and `handler`: set up the import
    callback when the fragment names a library, build the `local` preamble,
    walk the fragment evaluating every marked snippet, drop the library key,
    and shape the CloudFormation macro response. */
module Handler {
  import opened Results
  import opened Json
  import opened Text
  import opened TreeWalker
  import opened Imports

  /** The key under which a fragment names its library archive. */
  const LibraryKey: string := "JsonnetLibraryUri"

  /** The file name given to the evaluator for every snippet. */
  const SnippetName: string := "snippet"

  /** What `download_from_s3` leaves in the buffer: the object's bytes, or
      nothing when S3 answers 404, or the exception it re-raises. */
  datatype Download = Downloaded(bytes: seq<bv8>) | NotFound | DownloadError(msg: string)

  /** The collaborators the handler calls and this model does not look into. */
  datatype Runtime = Runtime(
    dumps: Json -> string,                                       // json.dumps
    format: Json -> string,                                      // `{accountId}` in an f-string
    loads: string -> Result<Json>,                               // json.loads
    evaluate: (string, string, Option<Importer>) -> Result<string>, // _jsonnet.evaluate_snippet(name, code, import_callback)
    download: Json -> Download,                                  // download_from_s3 into a fresh buffer
    openZip: seq<bv8> -> Result<Archive>)                        // ZipFile(buf), entries decoded

  /** The fields of the macro request the handler reads. */
  datatype Event = Event(
    requestId: Json,
    region: Json,
    accountId: Json,
    fragment: Members,
    templateParameterValues: Json)

  /** The two response records. */
  datatype Response =
    | Success(requestId: Json, fragment: Members)
    | Failure(requestId: Json, errorMessage: string)

  // ---------------------------------------------------------------------------
  // Evaluation context: import callback and preamble
  // ---------------------------------------------------------------------------

  /** The buffer once `download_from_s3` has run: empty after a 404. */
  function Buffer(d: Download): (r: Result<seq<bv8>>)
    ensures r.Err? <==> d.DownloadError?
    ensures r.Err? ==> r.msg == d.msg
    ensures d.NotFound? ==> r == Ok([])
    ensures d.Downloaded? ==> r == Ok(d.bytes)
  {
    match d
    case Downloaded(bytes) => Ok(bytes)
    case NotFound => Ok([])
    case DownloadError(msg) => Err(msg)
  }

  /** The import callback `handler_prime` sets up: present exactly when the
      fragment has the library key, built over the zip downloaded from the
      location stored under it. */
  function LoadLibrary(rt: Runtime, template: Members): (r: Result<Option<Importer>>)
    ensures r.Ok? ==> (r.value.Some? <==> HasKey(template, LibraryKey))
    ensures !HasKey(template, LibraryKey) ==> r == Ok(None)
    ensures HasKey(template, LibraryKey) ==>
      var d := rt.download(Get(template, LibraryKey));
      && (d.DownloadError? ==> r == Err(d.msg))
      && (d.NotFound? ==> r == if rt.openZip([]).Ok? then Ok(Some(Importer(rt.openZip([]).value))) else Err(rt.openZip([]).msg))
      && (d.Downloaded? ==> r == if rt.openZip(d.bytes).Ok? then Ok(Some(Importer(rt.openZip(d.bytes).value))) else Err(rt.openZip(d.bytes).msg))
  {
    if HasKey(template, LibraryKey) then
      var buf :- Buffer(rt.download(Get(template, LibraryKey)));
      var zip :- rt.openZip(buf);
      Ok(Some(Importer(zip)))
    else
      Ok(None)
  }

  /** One `local` declaration of the preamble. */
  function Binding(name: string, value: string): string
  {
    "local " + name + " = " + value + ";"
  }

  /** The preamble: four bindings, one per line, for the region, the account
      id (spliced in raw), the template and the template parameters. */
  function Preamble(rt: Runtime, region: Json, accountId: Json, template: Members, params: Json): (p: string)
    ensures
      NoNewline(rt.dumps(region)) && NoNewline(rt.format(accountId)) &&
      NoNewline(rt.dumps(JObj(template))) && NoNewline(rt.dumps(params)) ==>
        Lines(p) ==
          [ Binding("region", rt.dumps(region)),
            Binding("accountId", rt.format(accountId)),
            Binding("template", rt.dumps(JObj(template))),
            Binding("templateParams", rt.dumps(params)) ]
  {
    var b1 := Binding("region", rt.dumps(region));
    var b2 := Binding("accountId", rt.format(accountId));
    var b3 := Binding("template", rt.dumps(JObj(template)));
    var b4 := Binding("templateParams", rt.dumps(params));
    assert NoNewline(b1) && NoNewline(b2) && NoNewline(b3) && NoNewline(b4) ==>
      Lines(b1 + "\n" + b2 + "\n" + b3 + "\n" + b4) == [b1, b2, b3, b4] by {
      if NoNewline(b1) && NoNewline(b2) && NoNewline(b3) && NoNewline(b4) {
        JoinedLines(b1, b2, b3, b4);
      }
    }
    b1 + "\n" + b2 + "\n" + b3 + "\n" + b4
  }

  /** The text `process` hands to the evaluator for one snippet. */
  function Source(preamble: string, code: string): (s: string)
    ensures |s| == |preamble| + 1 + |code|
    ensures s[..|preamble|] == preamble && s[|preamble|] == '\n' && s[|preamble| + 1..] == code
  {
    preamble + "\n" + code
  }

  /** `process(code)`: evaluate the snippet behind the preamble, with the
      import callback when there is one, and parse the JSON it yields. */
  function Process(rt: Runtime, preamble: string, importCallback: Option<Importer>, code: string): (r: Result<Json>)
    ensures
      var out := rt.evaluate(SnippetName, Source(preamble, code), importCallback);
      && (out.Err? ==> r == Err(out.msg))
      && (out.Ok? ==> r == rt.loads(out.value))
  {
    var out :- rt.evaluate(SnippetName, Source(preamble, code), importCallback);
    rt.loads(out)
  }

  /** The closure `process` passed to the walker. */
  function Processor(rt: Runtime, preamble: string, importCallback: Option<Importer>): string -> Result<Json>
  {
    code => Process(rt, preamble, importCallback, code)
  }

  /** The preamble of an event: its `template` binding holds the fragment as
      it arrived, library key included. */
  function EventPreamble(rt: Runtime, event: Event): string
  {
    Preamble(rt, event.region, event.accountId, event.fragment, event.templateParameterValues)
  }

  /** What `handler_prime` returns as the fragment, or the exception it raises. */
  function Expand(rt: Runtime, event: Event): (r: Result<Members>)
    ensures LoadLibrary(rt, event.fragment).Err? ==> r == Err(LoadLibrary(rt, event.fragment).msg)
    ensures r.Ok? ==> !HasKey(r.value, LibraryKey)
    ensures r.Ok? ==> forall k :: k in Keys(r.value) <==> k in Keys(event.fragment) && k != LibraryKey
  {
    var importCallback :- LoadLibrary(rt, event.fragment);
    var output :- RewriteMembers(event.fragment, Processor(rt, EventPreamble(rt, event), importCallback));
    RemoveKeys(output, LibraryKey);
    Ok(if HasKey(output, LibraryKey) then Remove(output, LibraryKey) else output)
  }

  // ---------------------------------------------------------------------------
  // The handlers
  // ---------------------------------------------------------------------------

  /** `handler_prime`: the fragment is rewritten in place by the walker and
      then loses its library key. */
  method HandlerPrime(rt: Runtime, event: Event) returns (r: Result<Members>)
    ensures r == Expand(rt, event)
  {
    var template := event.fragment;
    var importCallback: Option<Importer>;
    if HasKey(template, LibraryKey) {
      var jsonnetLibraryUri := Get(template, LibraryKey);
      var buf: seq<bv8> := [];
      match rt.download(jsonnetLibraryUri) {
        case Downloaded(bytes) => buf := bytes;
        case NotFound =>
        case DownloadError(msg) =>
          r := Err(msg);
          return;
      }
      var zip := rt.openZip(buf);
      if zip.Err? {
        r := Err(zip.msg);
        return;
      }
      importCallback := Some(Importer(zip.value));
    } else {
      importCallback := None;
    }
    var preamble := Preamble(rt, event.region, event.accountId, template, event.templateParameterValues);
    var output, _ := WalkMembers(template, Processor(rt, preamble, importCallback));
    if output.Err? {
      r := Err(output.msg);
      return;
    }
    // The walker returns the very dict it rewrote, so `template` is `output`.
    template := output.value;
    if HasKey(template, LibraryKey) {
      template := Remove(template, LibraryKey);
    }
    r := Ok(template);
  }

  /** `handler`: every exception of `handler_prime` becomes a failure record;
      both records echo the request id. */
  method HandleEvent(rt: Runtime, event: Event) returns (resp: Response)
    ensures resp.requestId == event.requestId
    ensures resp.Success? <==> Expand(rt, event).Ok?
    ensures resp.Success? ==> resp.fragment == Expand(rt, event).value
    ensures resp.Failure? ==> resp.errorMessage == Expand(rt, event).msg
  {
    var requestId := event.requestId;
    var r := HandlerPrime(rt, event);
    if r.Ok? {
      resp := Success(requestId, r.value);
    } else {
      resp := Failure(requestId, r.msg);
    }
  }

  /** The dict a response is returned as. */
  function ResponseRecord(resp: Response): (j: Json)
    ensures j.JObj? && |j.members| == 3
    ensures Keys(j.members) == ["requestId", "status", if resp.Success? then "fragment" else "errorMessage"]
    ensures j.members[0].1 == resp.requestId
    ensures j.members[1].1 == JStr(if resp.Success? then "success" else "failure")
    ensures j.members[2].1 == if resp.Success? then JObj(resp.fragment) else JStr(resp.errorMessage)
  {
    match resp
    case Success(requestId, fragment) =>
      JObj([("requestId", requestId), ("status", JStr("success")), ("fragment", JObj(fragment))])
    case Failure(requestId, errorMessage) =>
      JObj([("requestId", requestId), ("status", JStr("failure")), ("errorMessage", JStr(errorMessage))])
  }

  // ---------------------------------------------------------------------------
  // Properties
  // ---------------------------------------------------------------------------

  /** The evaluator sees the four bindings, in order, one per line, and then
      the snippet verbatim, marker line included (given that the rendered
      values are single-line, as `json.dumps` output is). */
  lemma {:induction false} SourceLayout(rt: Runtime, region: Json, accountId: Json, template: Members, params: Json, code: string)
    requires NoNewline(rt.dumps(region)) && NoNewline(rt.format(accountId))
    requires NoNewline(rt.dumps(JObj(template))) && NoNewline(rt.dumps(params))
    ensures
      var pre := Preamble(rt, region, accountId, template, params);
      && Lines(Source(pre, code)) ==
           [ Binding("region", rt.dumps(region)),
             Binding("accountId", rt.format(accountId)),
             Binding("template", rt.dumps(JObj(template))),
             Binding("templateParams", rt.dumps(params)) ] + Lines(code)
      && Source(pre, code)[|pre| + 1..] == code
  {
    LinesAppend(Preamble(rt, region, accountId, template, params), code);
  }

  /** On success the fragment is the walked fragment without the library key:
      the walk used the callback iff the fragment names a library, and the
      preamble built from the fragment as it arrived. */
  lemma ExpandSuccess(rt: Runtime, event: Event)
    requires Expand(rt, event).Ok?
    ensures LoadLibrary(rt, event.fragment).Ok?
    ensures
      var cb := LoadLibrary(rt, event.fragment).value;
      var w := RewriteMembers(event.fragment, Processor(rt, EventPreamble(rt, event), cb));
      && (cb.Some? <==> HasKey(event.fragment, LibraryKey))
      && w.Ok?
      && Expand(rt, event).value == Remove(w.value, LibraryKey)
      && Keys(w.value) == Keys(event.fragment)
    ensures !HasKey(Expand(rt, event).value, LibraryKey)
    ensures forall k :: k in Keys(Expand(rt, event).value) <==> k in Keys(event.fragment) && k != LibraryKey
  {
  }

  /** `del` takes out exactly the one library entry: the walked fragment, whose
      entries stand where the input's did, loses the entry at the position
      the input holds the key, and keeps every other entry in order. */
  lemma {:induction false} ExpandDeletesOneEntry(rt: Runtime, event: Event)
    requires DistinctKeys(event.fragment)
    requires Expand(rt, event).Ok?
    ensures LoadLibrary(rt, event.fragment).Ok?
    ensures
      var cb := LoadLibrary(rt, event.fragment).value;
      var w := RewriteMembers(event.fragment, Processor(rt, EventPreamble(rt, event), cb));
      && w.Ok?
      && DistinctKeys(w.value)
      && (HasKey(event.fragment, LibraryKey) ==>
            var i := IndexOf(event.fragment, LibraryKey);
            Expand(rt, event).value == w.value[..i] + w.value[i + 1..])
      && (!HasKey(event.fragment, LibraryKey) ==> Expand(rt, event).value == w.value)
  {
    var cb := LoadLibrary(rt, event.fragment).value;
    var w := RewriteMembers(event.fragment, Processor(rt, EventPreamble(rt, event), cb)).value;
    assert Expand(rt, event).value == if HasKey(w, LibraryKey) then Remove(w, LibraryKey) else w;
    DeleteFromSameKeys(event.fragment, w, LibraryKey);
  }

  /** Fail-fast: the handler fails with the library's error if the library
      cannot be set up, and otherwise with the error of the first snippet, in
      traversal order, whose evaluation fails; it succeeds when none fails. */
  lemma {:induction false} ExpandFailure(rt: Runtime, event: Event)
    ensures
      var lib := LoadLibrary(rt, event.fragment);
      ErrorOf(Expand(rt, event)) ==
        if lib.Err? then Some(lib.msg)
        else FirstFailure(MarksMembers(event.fragment), Processor(rt, EventPreamble(rt, event), lib.value))
  {
    var lib := LoadLibrary(rt, event.fragment);
    if lib.Ok? {
      ErrorOfMembers(event.fragment, Processor(rt, EventPreamble(rt, event), lib.value));
    }
  }

  /** A fragment without snippets comes back as it was, minus the library
      key, and its library is the only thing that can make it fail. */
  lemma {:induction false} ExpandNoSnippets(rt: Runtime, event: Event)
    requires MarksMembers(event.fragment) == []
    ensures LoadLibrary(rt, event.fragment).Ok? ==> Expand(rt, event) == Ok(Remove(event.fragment, LibraryKey))
    ensures !HasKey(event.fragment, LibraryKey) ==> Expand(rt, event) == Ok(event.fragment)
  {
    var lib := LoadLibrary(rt, event.fragment);
    if lib.Ok? {
      MembersNoMarks(event.fragment, Processor(rt, EventPreamble(rt, event), lib.value));
    }
  }

  /** A library location that S3 does not know leaves the buffer empty; the
      zip opened over it then decides whether the handler can go on. */
  lemma NotFoundOpensEmptyBuffer(rt: Runtime, event: Event)
    requires HasKey(event.fragment, LibraryKey)
    requires rt.download(Get(event.fragment, LibraryKey)) == NotFound
    requires rt.openZip([]).Err?
    ensures Expand(rt, event) == Err(rt.openZip([]).msg)
  {
  }
}
