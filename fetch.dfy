/** The plain download path shared by `load_manifest` and
    `load_version_manifest`: one GET, the status check, the JSON parse and the
    schema validation, each step ending the operation with its own error. */
module Fetch {
  import opened Outcomes

  /** The publisher's canonical manifest endpoint, used when nothing is configured. */
  const DefaultManifestUrl := "https://piston-meta.mojang.com/mc/game/version_manifest_v2.json"

  /** `DownloadConfig`: the one setting the downloader reads. */
  datatype DownloadConfig = DownloadConfig(manifestUrl: string)

  /** The configuration built from the `manifest_url` setting, if one was given. */
  function ConfigFrom(manifestUrl: Option<string>): (config: DownloadConfig)
    ensures manifestUrl.Some? ==> config.manifestUrl == manifestUrl.value
    ensures manifestUrl.None? ==> config.manifestUrl == DefaultManifestUrl
  {
    DownloadConfig(if manifestUrl.Some? then manifestUrl.value else DefaultManifestUrl)
  }

  /** An HTTP answer: its status code, the path of its final URL (`Url::path`) and
      its body (None when reading it failed). */
  datatype Response = Response(status: nat, path: string, body: Option<string>)

  /** The outcome of sending one GET request. */
  datatype Exchange = Unreachable | Received(response: Response)

  /** `error_for_status` fails exactly on client (4xx) and server (5xx) errors. */
  predicate IsErrorStatus(status: nat)
    ensures IsErrorStatus(status) <==> status / 100 == 4 || status / 100 == 5
  {
    400 <= status < 600
  }

  /** The body text of an answer that passed the status check, if it could be read. */
  predicate HasBody(x: Exchange)
  {
    x.Received? && !IsErrorStatus(x.response.status) && x.response.body.Some?
  }

  /** Fetch, check the status, parse the body and validate the document. */
  function FetchAndParse<D>(x: Exchange, parse: string -> Json<D>, valid: D -> bool): (r: Result<D>)
    // a failed request or an error status ends the operation before any parse
    ensures x.Unreachable? ==> r == Err(TransportError)
    ensures x.Received? && IsErrorStatus(x.response.status) ==> r == Err(StatusError(x.response.status))
    ensures r.Err? && r.error.StatusError? <==> x.Received? && IsErrorStatus(x.response.status)
    ensures r.Err? && r.error.TransportError? <==>
      x.Unreachable? || (x.Received? && !IsErrorStatus(x.response.status) && x.response.body.None?)
    // a parse failure keeps the exact body text
    ensures r.Err? && r.error.MalformedError? <==> HasBody(x) && parse(x.response.body.value).Malformed?
    ensures r.Err? && r.error.MalformedError? ==>
      r.error.text == x.response.body.value && parse(r.error.text) == Malformed(r.error.reason)
    // validation only judges a parsed document
    ensures r.Err? && r.error.ValidationError? <==>
      HasBody(x) && parse(x.response.body.value).Parsed? && !valid(parse(x.response.body.value).value)
    // a success is exactly the parse of the body, and it passed validation
    ensures r.Ok? <==>
      HasBody(x) && parse(x.response.body.value).Parsed? && valid(parse(x.response.body.value).value)
    ensures r.Ok? ==> parse(x.response.body.value) == Parsed(r.value) && valid(r.value)
    ensures r.Err? ==> !r.error.ArchiveError? && !r.error.NotFound?
  {
    match x
    case Unreachable => Err(TransportError)
    case Received(response) =>
      if IsErrorStatus(response.status) then Err(StatusError(response.status))
      else match response.body
        case None => Err(TransportError)
        case Some(body) =>
          match parse(body)
          case Malformed(reason) => Err(MalformedError(reason, body))
          case Parsed(document) =>
            if valid(document) then Ok(document) else Err(ValidationError)
  }

  /** `validate` is consulted only about a document that was parsed: before that
      point the result does not depend on it at all. */
  lemma ValidationOnlyAfterParse<D>(x: Exchange, parse: string -> Json<D>, valid1: D -> bool, valid2: D -> bool)
    requires !(HasBody(x) && parse(x.response.body.value).Parsed?)
    ensures FetchAndParse(x, parse, valid1) == FetchAndParse(x, parse, valid2)
  {
  }

  /** `load_manifest`: GET the configured manifest URL (the default when none is
      configured) and run the shared pipeline on the answer. `fetch` gives the
      outcome of a GET of each URL. */
  function LoadManifest<M>(manifestUrl: Option<string>, fetch: string -> Exchange,
                           parse: string -> Json<M>, valid: M -> bool): (r: Result<M>)
    ensures manifestUrl.None? ==> r == FetchAndParse(fetch(DefaultManifestUrl), parse, valid)
    ensures manifestUrl.Some? ==> r == FetchAndParse(fetch(manifestUrl.value), parse, valid)
  {
    var config := ConfigFrom(manifestUrl);
    FetchAndParse(fetch(config.manifestUrl), parse, valid)
  }

  /** `load_version_manifest`: GET the given version URL and run the shared pipeline. */
  function LoadVersionManifest<V>(versionUrl: string, fetch: string -> Exchange,
                                  parse: string -> Json<V>, valid: V -> bool): (r: Result<V>)
    ensures r == FetchAndParse(fetch(versionUrl), parse, valid)
    ensures r.Ok? ==>
      HasBody(fetch(versionUrl)) && valid(r.value) && parse(fetch(versionUrl).response.body.value) == Parsed(r.value)
    ensures r.Err? && r.error.MalformedError? ==>
      HasBody(fetch(versionUrl)) && fetch(versionUrl).response.body == Some(r.error.text)
  {
    FetchAndParse(fetch(versionUrl), parse, valid)
  }
}
