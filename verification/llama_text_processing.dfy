/** `llama_ui/text_processing.py`: the earlier, tags-only variant of the
    search pipeline. The reply is read without lower-casing, its list must
    open the reply, and photos are scored by the plain number of shared
    tags. */
module LlamaTextProcessing {
  import opened Wrappers
  import opened Text
  import opened Ranking
  import TextProcessing

  /** The image types of `validate_path`. */
  const ImageTypes: set<string> := {"webp", "dng", "tif", "tiff", "mpo", "jpg", "bmp", "heic", "png", "jpeg", "pfm"}
  /** The video types of `validate_path`. */
  const VideoTypes: set<string> := {"mkv", "ts", "mp4", "wmv", "mpeg", "asf", "webm", "avi", "m4v", "mpg", "mov", "gif"}

  /** `validate_path`: the text after the last dot (the whole path when it
      has none) must be one of the image or video types, compared
      case-sensitively. */
  function ValidatePath(path: string): bool {
    AfterLast(path, '.') in ImageTypes || AfterLast(path, '.') in VideoTypes
  }

  /** A name with an extension is accepted exactly when the extension is a
      listed type, whatever the stem holds (dots included). */
  lemma ValidatePathOfName(stem: string, ext: string)
    requires Lacks(ext, '.')
    ensures ValidatePath(stem + "." + ext) <==> ext in ImageTypes || ext in VideoTypes
  {
    AfterLastOfSuffix(stem, '.', ext);
  }

  /** Upper-case extensions are refused. */
  lemma ValidatePathCaseSensitive(stem: string)
    ensures !ValidatePath(stem + "." + "JPG") && !ValidatePath(stem + "." + "MP4")
  {
    ValidatePathOfName(stem, "JPG");
    ValidatePathOfName(stem, "MP4");
  }

  /** The tag part of `process_input`: delete CR and LF, then match the
      bracketed list at the very start of the reply; indexing the failed
      match raises `TypeError`. The tags keep their case. */
  function ParseTags(reply: string): (r: Result<seq<string>, Raised>)
    ensures r.Err? ==> r.error == TypeError
    ensures r.Err? <==> AnchoredBracketText(StripLineBreaks(reply)).None?
    ensures r.Ok? ==> forall t :: t in r.value ==> ValidTag(t) && Occurs(t, StripLineBreaks(reply))
    ensures r.Ok? ==> forall t :: t in r.value ==> Occurs(t, AnchoredBracketText(StripLineBreaks(reply)).value)
  {
    var cleaned := StripLineBreaks(reply);
    match AnchoredBracketText(cleaned)
    case None => Err(TypeError)
    case Some(b) =>
      assert OccursAt(b, cleaned, BracketSpan(cleaned).value.start);
      WordTagsValid(b);
      WordTagsOccur(b);
      forall t | t in WordTags(b) ensures Occurs(t, cleaned) {
        TextProcessing.OccursTransitive(t, b, cleaned);
      }
      Ok(WordTags(b))
  }

  /** The reply must open with `[`: a list preceded by anything at all,
      even a space, is not found. */
  lemma ParseTagsNeedsLeadingBracket(reply: string)
    requires StripLineBreaks(reply) == [] || StripLineBreaks(reply)[0] != '['
    ensures ParseTags(reply) == Err(TypeError)
  {
  }

  lemma RenderListNoLineBreak(ts: seq<string>)
    requires forall t :: t in ts ==> ValidTag(t)
    ensures NoLineBreak(RenderList(ts))
  {
    var body := RenderList(ts);
    var p := c => !IsLineBreak(c);
    forall t | t in ts ensures forall k :: 0 <= k < |t| ==> p(t[k]) {
      assert ValidTag(t);
    }
    JoinKeeps(ts, p);
    forall k | 0 <= k < |body| ensures !IsLineBreak(body[k]) {
      if 0 < k < |body| - 1 {
        assert body[k] == Join(ts)[k - 1];
      }
    }
  }

  /** A bracketed, comma-separated list of tags at the start of the reply
      is read back as exactly that list, case kept, whatever follows it
      (as long as that has no `]`). */
  lemma ParseTagsRoundTrip(ts: seq<string>, post: string)
    requires forall t :: t in ts ==> ValidTag(t)
    requires Lacks(post, ']')
    ensures ParseTags(RenderList(ts) + post) == Ok(ts)
  {
    var body := RenderList(ts);
    RenderListNoLineBreak(ts);
    StripLineBreaksConcat(body, post);
    StripLineBreaksLacks(post, ']');
    var cleaned, rest := StripLineBreaks(body + post), StripLineBreaks(post);
    assert StripLineBreaks(body) == body;
    assert cleaned == body + rest;
    AnchoredBracketTextFramed(body, rest);
    WordTagsRenderList(ts);
  }

  /** `sum([tag in request_tags for tag in photo_tags])` for every photo, in
      order, paired with its filepath. */
  function MatchCounts(photos: seq<TextProcessing.Photo>, requestTags: seq<string>): (r: seq<Candidate>)
    ensures |r| == |photos|
    ensures forall i :: 0 <= i < |photos| ==>
      r[i] == Candidate(TextProcessing.MatchCount(photos[i].tags, requestTags) as real, photos[i].path)
  {
    if photos == [] then []
    else [Candidate(TextProcessing.MatchCount(photos[0].tags, requestTags) as real, photos[0].path)] + MatchCounts(photos[1..], requestTags)
  }

  /** What `search` returns: `None` when no photo shares a tag with the
      request, else the filepaths of the best `max_photos` photos. */
  function SearchResult(photos: seq<TextProcessing.Photo>, requestTags: seq<string>, maxPhotos: int): Option<seq<string>> {
    var cs := MatchCounts(photos, requestTags);
    if Positive(cs) == [] then None else Some(Paths(Top(cs, maxPhotos)))
  }

  /** `search(photos, request_tags, max_photos)`: count each photo's tags
      found in the request, keep the photos with a positive count, return
      nothing if there are none, else sort by count (stable, highest
      first), slice and return the filepaths. */
  method Search(photos: seq<TextProcessing.Photo>, requestTags: seq<string>, maxPhotos: int) returns (r: Option<seq<string>>)
    ensures r == SearchResult(photos, requestTags, maxPhotos)
  {
    var photoScores: seq<Candidate> := [];
    var i := 0;
    while i < |photos|
      invariant 0 <= i <= |photos| && |photoScores| == i
      invariant forall j :: 0 <= j < i ==>
        photoScores[j] == Candidate(TextProcessing.MatchCount(photos[j].tags, requestTags) as real, photos[j].path)
    {
      var matchScore := TextProcessing.MatchCount(photos[i].tags, requestTags);
      photoScores := photoScores + [Candidate(matchScore as real, photos[i].path)];
      i := i + 1;
    }
    assert photoScores == MatchCounts(photos, requestTags);
    photoScores := Positive(photoScores);
    if |photoScores| == 0 {
      return None;
    }
    photoScores := SortByScore(photoScores);
    var bestPhotos := Slice(photoScores, maxPhotos);
    r := Some(Paths(bestPhotos));
  }

  /** `search` returns nothing exactly when no photo has a tag the request
      asks for. */
  lemma SearchNone(photos: seq<TextProcessing.Photo>, requestTags: seq<string>, maxPhotos: int)
    ensures SearchResult(photos, requestTags, maxPhotos).None? <==>
      forall i :: 0 <= i < |photos| ==> forall t :: t in photos[i].tags ==> t !in requestTags
  {
    var cs := MatchCounts(photos, requestTags);
    PositiveEmpty(cs);
    forall i | 0 <= i < |photos| {
      TextProcessing.MatchCountZero(photos[i].tags, requestTags);
    }
    if forall c :: c in cs ==> c.score <= 0.0 {
      forall i | 0 <= i < |photos| ensures TextProcessing.MatchCount(photos[i].tags, requestTags) == 0 {
        assert cs[i] in cs;
      }
    }
  }

  /** Otherwise at most `max_photos` paths come back, each the path of a
      photo that shares a tag with the request. */
  lemma SearchReturnsMatchingPhotos(photos: seq<TextProcessing.Photo>, requestTags: seq<string>, maxPhotos: int)
    requires SearchResult(photos, requestTags, maxPhotos).Some?
    ensures maxPhotos >= 0 ==> |SearchResult(photos, requestTags, maxPhotos).value| <= maxPhotos
    ensures forall p :: p in SearchResult(photos, requestTags, maxPhotos).value ==>
      exists i :: 0 <= i < |photos| && photos[i].path == p && exists t :: t in photos[i].tags && t in requestTags
  {
    var cs := MatchCounts(photos, requestTags);
    forall p | p in Paths(Top(cs, maxPhotos))
      ensures exists i :: 0 <= i < |photos| && photos[i].path == p && exists t :: t in photos[i].tags && t in requestTags
    {
      PathOfMatchingPhoto(photos, requestTags, maxPhotos, p);
    }
  }

  lemma PathOfMatchingPhoto(photos: seq<TextProcessing.Photo>, requestTags: seq<string>, maxPhotos: int, p: string)
    requires p in Paths(Top(MatchCounts(photos, requestTags), maxPhotos))
    ensures exists i :: 0 <= i < |photos| && photos[i].path == p && exists t :: t in photos[i].tags && t in requestTags
  {
    var cs := MatchCounts(photos, requestTags);
    PathInTop(cs, maxPhotos, p);
    var i :| 0 <= i < |cs| && cs[i].path == p && cs[i].score > 0.0;
    TextProcessing.MatchCountZero(photos[i].tags, requestTags);
    assert photos[i].path == p;
  }

  /** The later search, given only tags, scores each photo at
      `MATCH_FACTOR` times this variant's count, and so ranks the photos
      the same way: whenever some photo shares a tag with the request, both
      return the same paths. */
  lemma SearchAgreesWithTagsOnlyQuery(photos: seq<TextProcessing.Photo>, requestTags: seq<string>, maxPhotos: int, decay: real -> real)
    ensures TextProcessing.SearchResult(photos, TextProcessing.Query(Some(requestTags), None, None), maxPhotos, decay) ==
      Ok(Paths(Top(MatchCounts(photos, requestTags), maxPhotos)))
    ensures SearchResult(photos, requestTags, maxPhotos).Some? ==>
      TextProcessing.SearchResult(photos, TextProcessing.Query(Some(requestTags), None, None), maxPhotos, decay) ==
      Ok(SearchResult(photos, requestTags, maxPhotos).value)
  {
    ScoreAllTagsOnly(photos, requestTags, decay);
    TopScale(MatchCounts(photos, requestTags), TextProcessing.MatchFactor, maxPhotos);
  }

  lemma ScoreAllTagsOnly(photos: seq<TextProcessing.Photo>, requestTags: seq<string>, decay: real -> real)
    ensures TextProcessing.ScoreAll(photos, TextProcessing.Query(Some(requestTags), None, None), decay) ==
      Ok(Scale(MatchCounts(photos, requestTags), TextProcessing.MatchFactor))
  {
    var query := TextProcessing.Query(Some(requestTags), None, None);
    var scaled := Scale(MatchCounts(photos, requestTags), TextProcessing.MatchFactor);
    forall i | 0 <= i < |photos|
      ensures TextProcessing.PhotoScore(photos[i], query, decay) == Ok(scaled[i].score)
    {
      TextProcessing.PhotoScoreTagsOnly(photos[i], requestTags, decay);
    }
    TextProcessing.ScoreAllOfScores(photos, query, decay, scaled);
  }
}
