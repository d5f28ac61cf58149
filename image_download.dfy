/** What the image downloader's worker does with one card of the dump: find
    its "normal" image URL (falling back to the first card face), skip it
    when there is none or when its target file already exists, and
    otherwise download it to "./images/<file name>.webp". */
module ImageDownload {
  import opened Wrappers
  import opened Text
  import opened FileNames
  import opened QueryEngine
  import opened JsonData
  import opened CardRecords

  /** The worker's handling of one card. */
  datatype Outcome =
    | SkipNoImage                        // no usable "normal" URL
    | SkipExists(path: string)           // the target file is already there
    | Download(url: Json, path: string)  // fetch `url` and save it at `path`
    | Failed                             // an exception, caught and reported

  /** The "normal" URL put in place of missing `image_uris`: the first card
      face's, if the card has faces, else "". `None` is an exception
      (`len` of a number, indexing a string or a dict, a missing key). */
  function FallbackNormal(card: Card): Option<Json> {
    if "card_faces" !in card then Some(JString(""))
    else
      match Size(card["card_faces"])
      case None => None
      case Some(size) =>
        if size == 0 then Some(JString(""))
        else
          match card["card_faces"]
          case JArray(faces) =>
            (match faces[0]
             case JObject(face) =>
               (match Lookup(face, "image_uris")
                case Some(JObject(uris)) => Lookup(uris, "normal")
                case _ => None)
             case _ => None)
          case _ => None
  }

  /** `card["image_uris"]` after the fallback has been filled in, or `None`
      when computing the fallback raised. */
  function ImageUris(card: Card): Option<Json> {
    if "image_uris" in card then Some(card["image_uris"])
    else
      match FallbackNormal(card)
      case None => None
      case Some(normal) => Some(JObject([("normal", normal)]))
  }

  /** The target of a card's image. */
  function TargetPath(name: string, typeLine: string): string {
    "./images/" + FileName(name + "-" + typeLine) + ".webp"
  }

  /** The body of the worker's `try` for one card; `existing` is the set of
      paths that exist when the card is handled. */
  function Decide(card: Card, existing: set<string>): Outcome {
    match ImageUris(card)
    case None => Failed
    case Some(uris) =>
      if !uris.JObject? then Failed
      else
        match Lookup(uris.fields, "normal")
        case None => SkipNoImage
        case Some(url) =>
          if !Truthy(url) then SkipNoImage
          else if !("name" in card && card["name"].JString? && "type_line" in card && card["type_line"].JString?) then Failed
          else
            var path := TargetPath(card["name"].s, card["type_line"].s);
            if path in existing then SkipExists(path) else Download(url, path)
  }

  // ---------------------------------------------------------------------
  // Properties

  /** A card without `image_uris` takes the first face's "normal" URL. */
  lemma FirstFaceFallback(card: Card, face: seq<(string, Json)>, uris: seq<(string, Json)>, rest: seq<Json>, existing: set<string>)
    requires "image_uris" !in card
    requires "card_faces" in card && card["card_faces"] == JArray([JObject(face)] + rest)
    requires Lookup(face, "image_uris") == Some(JObject(uris))
    requires Lookup(uris, "normal").Some? && Truthy(Lookup(uris, "normal").value)
    requires "name" in card && card["name"].JString? && "type_line" in card && card["type_line"].JString?
    ensures var path := TargetPath(card["name"].s, card["type_line"].s);
      Decide(card, existing) == if path in existing then SkipExists(path) else Download(Lookup(uris, "normal").value, path)
  {
    assert ([JObject(face)] + rest)[0] == JObject(face);
    var url := Lookup(uris, "normal").value;
    assert FallbackNormal(card) == Some(url);
    assert ImageUris(card) == Some(JObject([("normal", url)]));
    assert Lookup([("normal", url)], "normal") == Some(url);
  }

  /** A card with neither `image_uris` nor card faces is skipped without
      downloading. */
  lemma NoFacesSkipped(card: Card, existing: set<string>)
    requires "image_uris" !in card
    requires "card_faces" !in card || card["card_faces"] == JArray([])
    ensures Decide(card, existing) == SkipNoImage
  {
  }

  /** A card is skipped for want of an image exactly when its "normal" URL
      is missing or false (such as ""). */
  lemma SkipNoImageIff(card: Card, existing: set<string>)
    requires ImageUris(card).Some? && ImageUris(card).value.JObject?
    ensures Decide(card, existing) == SkipNoImage <==>
      var normal := Lookup(ImageUris(card).value.fields, "normal"); normal.None? || !Truthy(normal.value)
  {
  }

  /** A download goes to a path that does not exist yet, from a URL that is
      set; an existing path is skipped, and nothing else is. */
  lemma DownloadTargets(card: Card, existing: set<string>)
    ensures Decide(card, existing).Download? ==>
      Truthy(Decide(card, existing).url) && Decide(card, existing).path !in existing
    ensures Decide(card, existing).SkipExists? <==>
      Decide(card, existing) != Failed && Decide(card, existing) != SkipNoImage && Decide(card, existing).path in existing
  {
  }

  /** The downloaded file is the one the card's record names: its base name
      is the record's `file_name`. */
  lemma TargetIsRecordFile(card: Card, existing: set<string>)
    requires CardRecord(card).Ok?
    requires Decide(card, existing).Download? || Decide(card, existing).SkipExists?
    ensures Decide(card, existing).path == "./images/" + CardRecord(card).value["file_name"].s
  {
    DecidePath(card, existing);
    RecordNames(card);
    AppendAssociative("./images/", FileName(card["name"].s + "-" + card["type_line"].s), ".webp");
  }

  /** A download or a skip for an existing file is at the card's target
      path. */
  lemma DecidePath(card: Card, existing: set<string>)
    requires Decide(card, existing).Download? || Decide(card, existing).SkipExists?
    ensures "name" in card && card["name"].JString? && "type_line" in card && card["type_line"].JString?
    ensures Decide(card, existing).path == TargetPath(card["name"].s, card["type_line"].s)
  {
  }
}
