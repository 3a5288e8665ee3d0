# Mojang metadata downloader, modelled in Dafny

This project models the decision logic of `mcmeta/src/download/mojang.rs` in the
mcmeta metadata service. That file fetches Mojang's top-level version manifest,
per-version documents, and the zipped version documents of old releases. Four
modules:

- `Outcomes` (`outcomes.dfy`): `Option`, the parser's verdict `Json<D>`
  (`Parsed(value)` or `Malformed(reason)`), the error kinds a caller can tell
  apart, and `Result<T>`.
- `FileName` (`file_name.dfy`): the name the downloaded archive is stored under.
  `Segments` stands for `Url::path_segments`: a path that starts with `/` is
  split at `/` after that first `/` (`Split`); any other path has no segments.
  `Last` stands for `Iterator::last`. `DestinationName`
  is the combinator chain ending in `unwrap_or("tmp.zip")`.
- `Fetch` (`fetch.dfy`): the `DownloadConfig` default and the
  fetch → status → parse → validate pipeline that `load_manifest` and
  `load_version_manifest` share.
- `Archive` (`archive.dfy`): `load_zipped_version`. `ExtractManifest` is the
  `for i in 0..archive.len()` loop, written as a Dafny `for` loop over a local
  `manifest: Option<D>`. It is proved equal to `Extracted`, an independent
  definition that works from the back of the archive. The properties of the walk
  are lemmas about `Extracted`.

The library calls become parameters:
- `fetch: string -> Exchange` is the outcome of a GET of each URL. An `Exchange`
  is either `Unreachable` or `Received(response)`, where the `Response` holds a
  status, the final URL's path (`Url::path`) and a body; a body of `None` means
  reading it failed.
- `parse: string -> Json<D>` stands for `serde_json::from_str`.
- `valid: D -> bool` stands for `Validate::validate`.
- `unpack: string -> Option<seq<Slot>>` stands for `ZipArchive::new` together
  with `by_index`. Each `Slot` is a readable entry (name and text) or an entry
  that cannot be opened.

Three behaviours of the code are easy to misread, and the model keeps each one:
- The entry loop has no `break` and overwrites `manifest` for every qualifying
  entry, so the last `.json` entry wins, not the first (`LastJsonEntryWins`).
  A parse failure of any qualifying entry aborts, even after an earlier one
  parsed (`FirstFailureAborts`).
- The zipped path never calls `validate`, unlike the two plain paths
  (`ZippedPathSkipsValidation`).
- `error_for_status` rejects only 400–599, so 1xx and 3xx answers go on to the
  parse (`IsErrorStatus`).

## Model

| member | source | states |
|---|---|---|
| `FileName.Split` | mcmeta/src/download/mojang.rs:80 | splitting a path at `/` gives at least one segment, and no segment contains `/` |
| `FileName.JoinSplit` | mcmeta/src/download/mojang.rs:80 | joining the segments of a path with `/` gives back the path |
| `FileName.SplitJoin` | mcmeta/src/download/mojang.rs:80 | splitting a join of `/`-free segments gives back those segments |
| `FileName.LastPieceIsSuffix` | mcmeta/src/download/mojang.rs:81 | the last segment is the text after the path's last `/`, or the whole text when there is no `/` |
| `FileName.Last` | mcmeta/src/download/mojang.rs:81 | `.last()` gives nothing exactly for no segments, and otherwise the final segment, with the segments before it in front |
| `FileName.Segments` | mcmeta/src/download/mojang.rs:80 | a path has segments exactly when it starts with `/`, and then at least one |
| `FileName.DestinationName` | mcmeta/src/download/mojang.rs:77-85 | the temporary file name is never empty and never contains `/`; a URL whose path has no leading `/` (no path segments) gets `tmp.zip` |
| `FileName.FileNameIsLastSegment` | mcmeta/src/download/mojang.rs:78-83 | a path with no leading `/` or ending in `/` gives `tmp.zip`; otherwise the name is the whole, non-empty text after the path's last `/` |
| `Fetch.ConfigFrom` | mcmeta/src/download/mojang.rs:11-19 | a configured `manifest_url` is used as given; without one the URL is `https://piston-meta.mojang.com/mc/game/version_manifest_v2.json` |
| `Fetch.IsErrorStatus` | mcmeta/src/download/mojang.rs:39 | `error_for_status` rejects exactly the statuses of class 4xx or 5xx (400–599); every other status passes |
| `Fetch.FetchAndParse` | mcmeta/src/download/mojang.rs:35-46 | the error kinds are told apart, each with its exact condition. A 4xx/5xx status fails before any parse, whatever the body. A transport error comes from a failed send or body read. A parse failure keeps the exact body text. A validation error means the body parsed and `validate` rejected it. A success is exactly the parse of the body and has passed `validate`. The plain path never yields the archive errors |
| `Fetch.ValidationOnlyAfterParse` | mcmeta/src/download/mojang.rs:43-45 | when the answer does not yield a parsed document, the result does not depend on `validate` |
| `Fetch.LoadManifest` | mcmeta/src/download/mojang.rs:31-47 | the URL fetched is the configured one, or the default constant when none is configured, and the shared pipeline decides the result |
| `Fetch.LoadVersionManifest` | mcmeta/src/download/mojang.rs:49-65 | the result is the shared pipeline on the answer fetched from `version_url`, so every error kind of `FetchAndParse` (status, transport, parse, validation) carries over; a success is the validated parse of that body; a parse error carries that body |
| `Archive.IsJsonName` | mcmeta/src/download/mojang.rs:102 | a name qualifies exactly when it is some text followed by the five characters `.json`, case-sensitively |
| `Archive.Extracted` | mcmeta/src/download/mojang.rs:99-114 | the walk's result, defined from the back of the archive; its only errors are an unopenable entry, a parse error, or "Unable to find version manifest", never a validation error |
| `Archive.Found` | mcmeta/src/download/mojang.rs:114 | `ok_or` gives the found document when there is one, and otherwise the "Unable to find version manifest" error |
| `Archive.MalformedFromJsonEntry` | mcmeta/src/download/mojang.rs:107-109 | a parse error of the walk carries the exact text of a `.json` entry that the parser rejected, with the parser's reason |
| `Archive.ExtractedAppend` | mcmeta/src/download/mojang.rs:99-112 | walking `first + second` equals walking `first` and then `second`: an error in `first` stands; otherwise `second` decides unless it found nothing |
| `Archive.ExtractManifest` | mcmeta/src/download/mojang.rs:99-114 | the loop, with `manifest` overwritten by each parsed `.json` entry and an early return on a failing entry, computes exactly `Extracted` |
| `Archive.LoadZippedVersion` | mcmeta/src/download/mojang.rs:67-115 | the failure order is send, then status, then body read, then archive opening, then the entry walk. The stored file name is derived only after the status check |
| `Archive.NotFoundIffNoJson` | mcmeta/src/download/mojang.rs:99-114 | the result is "Unable to find version manifest" exactly when every entry opens and none has a name ending in `.json`; an archive with no entries is one such case |
| `Archive.NoFailureNoError` | mcmeta/src/download/mojang.rs:100-112 | with no failing entry, the walk finds a document or finds nothing |
| `Archive.NonJsonEntryIgnored` | mcmeta/src/download/mojang.rs:100-102 | inserting an entry whose name does not end in `.json` anywhere in the archive does not change the result |
| `Archive.OnlyJsonEntriesParsed` | mcmeta/src/download/mojang.rs:102-109 | only the texts of `.json` entries reach the parser: parsers that agree on those texts give the same result |
| `Archive.LastJsonEntryWins` | mcmeta/src/download/mojang.rs:99-112 | when no entry fails, the result is the parse of the last `.json` entry, even if earlier `.json` entries parsed too |
| `Archive.FirstFailureAborts` | mcmeta/src/download/mojang.rs:100-110 | the first failing entry fixes the result. An entry that cannot be opened gives an archive error; a `.json` entry that does not parse gives a parse error carrying that entry's text. Earlier successes and later entries do not matter |
| `Archive.SuccessFromSomeJsonEntry` | mcmeta/src/download/mojang.rs:99-114 | a success means no entry failed and the document is the parse of some `.json` entry |
| `Archive.ZippedPathSkipsValidation` | mcmeta/src/download/mojang.rs:107-114 | an archived document that `validate` rejects is still returned, while the plain path rejects the same text with a validation error |

## Left out

- HTTP (`reqwest` client, `send`, `text`, `bytes`, async scheduling): the outcome of a GET is the `fetch` parameter, or the `Exchange` value given to `LoadZippedVersion`. Decoding a body as text versus bytes is not distinguished; both are a `string`.
- Loading configuration from the `MCMETA_MOJANG` environment prefix (`DownloadConfig::from_config`, lines 22-28): only "the given value, else the default" is modelled. A failure to build the configuration is not modelled.
- Temporary directory and file handling (`TempDir::new`, `File::create`, `io::copy`, `File::open`, lines 76, 85, 88-95): this is filesystem I/O, assumed to succeed. The `Drop` cleanup of the directory cannot be stated here. `LoadZippedVersion` returns only the derived file name.
- Zip parsing (`ZipArchive::new`, `by_index`, `read_to_string`): it is the `unpack` parameter. Entry contents are text by construction, so the `.unwrap()` panic on unreadable or non-UTF-8 contents (line 105) is not modelled.
- `serde_json::from_str` and `serde_valid::Validate` are the `parse` and `valid` parameters. The schema of the manifest and version types is not part of this model, and neither is the contents of the `MetadataError` type beyond the offending text and a reason.
- URL parsing: the input is the final URL's path as `Url::path` gives it; only `path_segments` on that path is modelled.
- `tracing` debug logging is not modelled.
- Repeating a fetch against an unchanged remote gives equal results because every function here is deterministic; no separate lemma states it.
