/** `load_zipped_version`: the version document of an old release comes inside a
    zip archive. The archive's entries are walked in index order; every entry
    whose name ends in ".json" is parsed and replaces the document found so far,
    so the last such entry wins; the first parse failure ends the walk. */
module Archive {
  import opened Outcomes
  import opened Fetch
  import FileName

  /** One file of the archive: its name and its contents read as text. */
  datatype Entry = Entry(name: string, contents: string)

  /** What `ZipArchive::by_index` gives for one index: the entry, or a failure. */
  datatype Slot = Readable(entry: Entry) | Unreadable

  /** `str::ends_with(".json")`, case-sensitive. */
  predicate IsJsonName(name: string)
    ensures IsJsonName(name) <==> |name| >= 5 && name == name[..|name| - 5] + ".json"
  {
    |name| >= 5 && name[|name| - 5..] == ".json"
  }

  /** A slot that the walk would read and that holds a ".json" entry. */
  predicate Qualifies(slot: Slot)
  {
    slot.Readable? && IsJsonName(slot.entry.name)
  }

  /** A slot that the walk opens and passes over. */
  predicate Ignored(slot: Slot)
  {
    slot.Readable? && !IsJsonName(slot.entry.name)
  }

  /** A slot that stops the walk: it cannot be opened, or it is a ".json" entry
      whose text does not parse. */
  predicate Fails<D>(slot: Slot, parse: string -> Json<D>)
  {
    slot.Unreadable? || (Qualifies(slot) && parse(slot.entry.contents).Malformed?)
  }

  /** The error a failing slot stops the walk with. */
  function FailureOf<D>(slot: Slot, parse: string -> Json<D>): Result<D>
    requires Fails(slot, parse)
  {
    if slot.Unreadable? then Err(ArchiveError)
    else Err(MalformedError(parse(slot.entry.contents).reason, slot.entry.contents))
  }

  /** What the walk makes of an archive, defined from the back: a ".json"
      entry that parses is the answer unless a later entry fails or supplies
      an answer of its own. */
  function Extracted<D>(archive: seq<Slot>, parse: string -> Json<D>): (r: Result<D>)
    // the walk never validates, and its only errors are the archive's own
    ensures r.Err? ==> r.error == ArchiveError || r.error == NotFound || r.error.MalformedError?
  {
    if archive == [] then Err(NotFound)
    else
      var rest := Extracted(archive[1..], parse);
      match archive[0]
      case Unreadable => Err(ArchiveError)
      case Readable(e) =>
        if !IsJsonName(e.name) then rest
        else match parse(e.contents)
          case Malformed(reason) => Err(MalformedError(reason, e.contents))
          case Parsed(document) => if rest.Err? && rest.error.NotFound? then Ok(document) else rest
  }

  /** The outcome of a walk over `first` followed by one over `second`: an error
      of `first` stands, otherwise `second` decides unless it found nothing. */
  function Then<D>(first: Result<D>, second: Result<D>): Result<D>
  {
    if first.Err? && !first.error.NotFound? then first
    else if second.Err? && second.error.NotFound? then first
    else second
  }

  /** `manifest.ok_or(anyhow!("Unable to find version manifest"))`. */
  function Found<D>(manifest: Option<D>): (r: Result<D>)
    ensures r.Ok? <==> manifest.Some?
    ensures r.Ok? ==> manifest == Some(r.value)
    ensures r.Err? ==> r.error == NotFound
  {
    if manifest.Some? then Ok(manifest.value) else Err(NotFound)
  }

  lemma {:induction false} ExtractedAppend<D>(first: seq<Slot>, second: seq<Slot>, parse: string -> Json<D>)
    ensures Extracted(first + second, parse) == Then(Extracted(first, parse), Extracted(second, parse))
  {
    if first == [] {
      assert first + second == second;
    } else {
      assert (first + second)[1..] == first[1..] + second;
      ExtractedAppend(first[1..], second, parse);
    }
  }

  /** The loop of `load_zipped_version`: `manifest` holds the parse of the last
      ".json" entry seen so far; an entry that cannot be opened or parsed ends
      it at once. */
  method ExtractManifest<D>(archive: seq<Slot>, parse: string -> Json<D>) returns (r: Result<D>)
    ensures r == Extracted(archive, parse)
  {
    var manifest: Option<D> := None;
    for i := 0 to |archive|
      invariant Extracted(archive[..i], parse) == Found(manifest)
    {
      ExtractedAppend(archive[..i], [archive[i]], parse);
      assert archive[..i + 1] == archive[..i] + [archive[i]];
      ExtractedAppend(archive[..i + 1], archive[i + 1..], parse);
      assert archive == archive[..i + 1] + archive[i + 1..];
      match archive[i]
      case Unreadable =>
        return Err(ArchiveError);
      case Readable(e) =>
        if IsJsonName(e.name) {
          match parse(e.contents)
          case Malformed(reason) =>
            return Err(MalformedError(reason, e.contents));
          case Parsed(document) =>
            manifest := Some(document);
        }
    }
    assert archive[..|archive|] == archive;
    r := Found(manifest);
  }

  /** `load_zipped_version`: GET the archive, check the status, read its bytes,
      open them as a zip archive with `unpack` (None when that fails) and walk
      its entries. The document is returned without being validated. */
  method LoadZippedVersion<D>(x: Exchange, unpack: string -> Option<seq<Slot>>, parse: string -> Json<D>)
    returns (r: Result<D>, storedAs: string)
    ensures x.Unreachable? ==> r == Err(TransportError)
    ensures x.Received? && IsErrorStatus(x.response.status) ==> r == Err(StatusError(x.response.status))
    ensures x.Received? && !IsErrorStatus(x.response.status) ==>
      storedAs == FileName.DestinationName(x.response.path)
    ensures x.Received? && !IsErrorStatus(x.response.status) && x.response.body.None? ==> r == Err(TransportError)
    ensures HasBody(x) && unpack(x.response.body.value).None? ==> r == Err(ArchiveError)
    ensures HasBody(x) && unpack(x.response.body.value).Some? ==>
      r == Extracted(unpack(x.response.body.value).value, parse)
  {
    storedAs := "";
    if x.Unreachable? {
      return Err(TransportError), storedAs;
    }
    var response := x.response;
    if IsErrorStatus(response.status) {
      return Err(StatusError(response.status)), storedAs;
    }
    storedAs := FileName.DestinationName(response.path);
    if response.body.None? {
      return Err(TransportError), storedAs;
    }
    var archive := unpack(response.body.value);
    if archive.None? {
      return Err(ArchiveError), storedAs;
    }
    r := ExtractManifest(archive.value, parse);
  }

  /** Nothing is found exactly when every entry can be opened and none has a
      ".json" name; an archive without entries is one such. */
  lemma {:induction false} NotFoundIffNoJson<D>(archive: seq<Slot>, parse: string -> Json<D>)
    ensures Extracted(archive, parse) == Err(NotFound) <==> forall k :: 0 <= k < |archive| ==> Ignored(archive[k])
  {
    if archive != [] {
      var tail := archive[1..];
      NotFoundIffNoJson(tail, parse);
      if forall k :: 0 <= k < |archive| ==> Ignored(archive[k]) {
        forall k | 0 <= k < |tail| ensures Ignored(tail[k]) {
          assert tail[k] == archive[k + 1];
        }
        assert Extracted(archive, parse) == Extracted(tail, parse);
      } else if Ignored(archive[0]) {
        var k :| 0 <= k < |archive| && !Ignored(archive[k]);
        assert k > 0 && tail[k - 1] == archive[k];
        assert Extracted(archive, parse) == Extracted(tail, parse);
      }
    }
  }

  /** Without a failing slot the walk finds a document or finds nothing. */
  lemma {:induction false} NoFailureNoError<D>(archive: seq<Slot>, parse: string -> Json<D>)
    requires forall k :: 0 <= k < |archive| ==> !Fails(archive[k], parse)
    ensures Extracted(archive, parse).Ok? || Extracted(archive, parse) == Err(NotFound)
  {
    if archive != [] {
      assert forall k :: 0 <= k < |archive[1..]| ==> archive[1..][k] == archive[k + 1];
      NoFailureNoError(archive[1..], parse);
      assert !Fails(archive[0], parse);
    }
  }

  /** An entry that does not have a ".json" name changes nothing, wherever it sits. */
  lemma NonJsonEntryIgnored<D>(before: seq<Slot>, e: Entry, after: seq<Slot>, parse: string -> Json<D>)
    requires !IsJsonName(e.name)
    ensures Extracted(before + [Readable(e)] + after, parse) == Extracted(before + after, parse)
  {
    ExtractedAppend(before + [Readable(e)], after, parse);
    ExtractedAppend(before, [Readable(e)], parse);
    ExtractedAppend(before, after, parse);
    assert Extracted([Readable(e)], parse) == Err(NotFound) by {
      assert [Readable(e)][1..] == [];
    }
  }

  /** Only the text of ".json" entries is handed to the parser: two parsers
      that agree on those texts give the same outcome. */
  lemma {:induction false} OnlyJsonEntriesParsed<D>(archive: seq<Slot>, parse1: string -> Json<D>, parse2: string -> Json<D>)
    requires forall k :: 0 <= k < |archive| && Qualifies(archive[k]) ==>
      parse1(archive[k].entry.contents) == parse2(archive[k].entry.contents)
    ensures Extracted(archive, parse1) == Extracted(archive, parse2)
  {
    if archive != [] {
      assert forall k :: 0 <= k < |archive[1..]| ==> archive[1..][k] == archive[k + 1];
      OnlyJsonEntriesParsed(archive[1..], parse1, parse2);
      assert Qualifies(archive[0]) ==> parse1(archive[0].entry.contents) == parse2(archive[0].entry.contents);
    }
  }

  /** When no slot fails, the answer is the parse of the last ".json" entry, even
      when earlier ".json" entries parsed as well. */
  lemma LastJsonEntryWins<D>(archive: seq<Slot>, k: nat, parse: string -> Json<D>)
    requires k < |archive| && Qualifies(archive[k])
    requires forall j :: 0 <= j < |archive| ==> !Fails(archive[j], parse)
    requires forall j :: k < j < |archive| ==> !Qualifies(archive[j])
    ensures parse(archive[k].entry.contents).Parsed?
    ensures Extracted(archive, parse) == Ok(parse(archive[k].entry.contents).value)
  {
    assert !Fails(archive[k], parse);
    var tail := archive[k + 1..];
    assert archive[k..] == [archive[k]] + tail;
    forall j | 0 <= j < |tail| ensures Ignored(tail[j]) {
      assert tail[j] == archive[k + 1 + j];
      assert !Fails(archive[k + 1 + j], parse);
    }
    NotFoundIffNoJson(tail, parse);
    assert archive[k..][1..] == tail;
    assert Extracted(archive[k..], parse) == Ok(parse(archive[k].entry.contents).value);
    forall j | 0 <= j < k ensures !Fails(archive[..k][j], parse) {
      assert archive[..k][j] == archive[j];
    }
    NoFailureNoError(archive[..k], parse);
    ExtractedAppend(archive[..k], archive[k..], parse);
    assert archive == archive[..k] + archive[k..];
  }

  /** The first failing slot decides the outcome, whatever came before it
      (parsed documents included) and whatever follows it. */
  lemma FirstFailureAborts<D>(archive: seq<Slot>, k: nat, parse: string -> Json<D>)
    requires k < |archive| && Fails(archive[k], parse)
    requires forall j :: 0 <= j < k ==> !Fails(archive[j], parse)
    ensures Extracted(archive, parse) == FailureOf(archive[k], parse)
  {
    forall j | 0 <= j < k ensures !Fails(archive[..k][j], parse) {
      assert archive[..k][j] == archive[j];
    }
    NoFailureNoError(archive[..k], parse);
    assert archive[k..][0] == archive[k];
    assert Extracted(archive[k..], parse) == FailureOf(archive[k], parse);
    ExtractedAppend(archive[..k], archive[k..], parse);
    assert archive == archive[..k] + archive[k..];
  }

  /** A success means every ".json" entry parsed and one of them is the answer. */
  lemma {:induction false} SuccessFromSomeJsonEntry<D>(archive: seq<Slot>, parse: string -> Json<D>)
    requires Extracted(archive, parse).Ok?
    ensures forall j :: 0 <= j < |archive| ==> !Fails(archive[j], parse)
    ensures exists k ::
      0 <= k < |archive| && Qualifies(archive[k]) && parse(archive[k].entry.contents) == Parsed(Extracted(archive, parse).value)
  {
    var tail := archive[1..];
    var rest := Extracted(tail, parse);
    var result := Extracted(archive, parse);
    assert archive[0].Readable?;
    var e := archive[0].entry;
    if rest.Ok? {
      assert result == rest;
      SuccessFromSomeJsonEntry(tail, parse);
      var k :| 0 <= k < |tail| && Qualifies(tail[k]) && parse(tail[k].entry.contents) == Parsed(rest.value);
      assert archive[k + 1] == tail[k];
      assert Qualifies(archive[k + 1]) && parse(archive[k + 1].entry.contents) == Parsed(result.value);
    } else {
      assert IsJsonName(e.name) && parse(e.contents).Parsed? && rest.error.NotFound?;
      assert result == Ok(parse(e.contents).value);
      NotFoundIffNoJson(tail, parse);
      assert Qualifies(archive[0]) && parse(archive[0].entry.contents) == Parsed(result.value);
    }
    forall j | 0 < j < |archive| ensures !Fails(archive[j], parse) {
      assert archive[j] == tail[j - 1];
    }
  }

  /** A parse error carries the text of a ".json" entry that the parser rejected. */
  lemma {:induction false} MalformedFromJsonEntry<D>(archive: seq<Slot>, parse: string -> Json<D>)
    requires Extracted(archive, parse).Err? && Extracted(archive, parse).error.MalformedError?
    ensures var e := Extracted(archive, parse).error;
      exists k :: 0 <= k < |archive| && Qualifies(archive[k]) &&
        archive[k].entry.contents == e.text && parse(e.text) == Malformed(e.reason)
  {
    var e := Extracted(archive, parse).error;
    var rest := Extracted(archive[1..], parse);
    if Qualifies(archive[0]) && parse(archive[0].entry.contents).Malformed? {
      assert archive[0].entry.contents == e.text && parse(e.text) == Malformed(e.reason);
    } else {
      assert rest == Extracted(archive, parse);
      MalformedFromJsonEntry(archive[1..], parse);
      var k :| 0 <= k < |archive[1..]| && Qualifies(archive[1..][k]) &&
        archive[1..][k].entry.contents == e.text && parse(e.text) == Malformed(e.reason);
      assert archive[k + 1] == archive[1..][k];
    }
  }

  /** The archived path never validates: an archive whose single ".json" entry
      holds a document that `valid` rejects still yields that document, while the
      plain path rejects the same text with a validation error. */
  lemma ZippedPathSkipsValidation<D>(name: string, text: string, parse: string -> Json<D>, valid: D -> bool,
                                     response: Response)
    requires IsJsonName(name) && parse(text).Parsed? && !valid(parse(text).value)
    requires !IsErrorStatus(response.status) && response.body == Some(text)
    ensures Extracted([Readable(Entry(name, text))], parse) == Ok(parse(text).value)
    ensures FetchAndParse(Received(response), parse, valid) == Err(ValidationError)
  {
    assert [Readable(Entry(name, text))][1..] == [];
  }
}
