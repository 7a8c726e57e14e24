# Photo search: request parsing, ranking, metadata and face labels

This project models the search pipeline of a desktop photo-search
application in Dafny.

The user describes a photo in free text. A language model answers three
prompts: a bracketed list of tags, a bracketed `[latitude, longitude]` and
a bracketed `[YYYY:MM:DD]`. `process_input` reads the three replies into a
query. `search` then scores every stored photo record against the query:
- exponentially decaying scores for latitude, longitude, year, month and day;
- `MATCH_FACTOR` for each of the photo's tags that the request names.

It keeps the photos that score above zero, sorts them by score (stably,
highest first), keeps the first `max_photos` and returns their file paths.

The model also covers:
- the earlier tags-only variant of the pipeline (`llama_ui/text_processing.py`);
- the three `validate_path` extension checks;
- how `get_image_metadata` turns the Exif GPS directory into the `lat,lon`
  string that `search` reads back;
- the validity branch of `detect_image` in the face module;
- `label_faces`, which names each detected face after the saved faces it
  resembles;
- `timestamp_to_readable`.

Modules, one per file:
- `Wrappers`: `Option` and `Result`, plus `Raised`, the Python exception
  that ends a call.
- `Text`: character classes, `str.lower`, the CR/LF deletion, the
  bracketed span of `\[.*\]`, maximal-run tokenisers, the
  `(\w+ *\w+)+` tag tokeniser, splitting at a character and the text after
  the last dot.
- `Decimal`: digit strings and naturals, `float()` on decimal numerals,
  and printing a value with at most four decimal places.
- `Ranking`: candidates `(score, path)`, the filter, the stable descending
  sort, Python's slice and the paths.
- `TextProcessing`, `LlamaTextProcessing`, `ImageProcessing`,
  `FaceProcessing`: one for each source file.

The language model's replies, the stored photo records, the decoded Exif
items with the library's tag-name table, the detector's output, the saved
faces and the similarity measure are all parameters. Python exceptions
are modelled as the `Err` case of a `Result`.

Where the design description and the code disagree, the model follows
the code:
- A reply without a bracketed tag list leaves the tags `None`; it does
  not give an empty list. `search` then raises `TypeError` for the first
  photo that has tags (`TextProcessing.SearchWithoutTagsRaises`).
- A location token such as `.` or `1.2.3` makes `float()` raise
  `ValueError`; it does not count as a missing location.
- A photo's tags are a list, so a tag the photo lists twice counts twice.
  Repeats in the request add nothing (`TextProcessing.MatchCountSameTags`).
- Ties keep input order, because Python's sort is stable
  (`Ranking.TopStable`).

## Model

| member | source | states |
|---|---|---|
| Text.Lower | text_processing.py:67 | same length, no upper-case letter left, each character lowered on its own |
| Text.StripLineBreaks | text_processing.py:73 | no CR or LF in the result; a string without them is unchanged |
| Text.StripLineBreaksKeepsOthers | text_processing.py:73 | every other character keeps its number of occurrences |
| Text.StripLineBreaksConcat | text_processing.py:73 | the deletion works piecewise over a concatenation |
| Text.BracketSpan | text_processing.py:76 | no span exactly when no `]` follows any `[`; otherwise the span runs from the first `[` to the last `]` |
| Text.BracketText | text_processing.py:76 | the matched text starts with `[`, ends with `]` and occurs in the input at the span's start |
| Text.BracketTextFramed | text_processing.py:76 | a bracketed body framed by text with no `[` before it and no `]` after it is exactly what is found |
| Text.AnchoredBracketText | llama_ui/text_processing.py:45 | found exactly when the string starts with `[` and a later `]` exists, and then it is the same span as the unanchored search |
| Text.AnchoredBracketTextFramed | llama_ui/text_processing.py:45 | a list at the very start, followed by text without `]`, is found whole |
| Text.AfterLast | image_processing.py:17 | the result is a suffix without a dot, preceded by a dot unless it is the whole string |
| Text.AfterLastOfSuffix | image_processing.py:17 | the text after the last dot of `stem.ext` is `ext` whatever the stem holds |
| Text.Split | text_processing.py:159 | at least one piece, none containing the separator |
| Text.SplitJoin | text_processing.py:159 | joining the pieces with the separator gives the input back |
| Text.SplitTwo | text_processing.py:159 | `a,b` with no comma in `a` or `b` splits into exactly `[a, b]` |
| Text.Runs | text_processing.py:105 | every run is non-empty and made only of characters of the class |
| Text.RunsConcat | text_processing.py:105 | a separator outside the class splits the runs into those of each side |
| Text.WordTagsValid | text_processing.py:79 | every tag is word characters, at most one run of spaces, word characters, with at least two word characters |
| Text.WordTagsOccur | text_processing.py:79 | every tag is a substring of the bracketed span |
| Text.WordTagsConcat | text_processing.py:79 | a character that is neither a word character nor a space separates the tags of each side |
| Text.WordTagsOfTag | text_processing.py:79 | a valid tag on its own is read as itself |
| Text.WordTagsRenderList | text_processing.py:79 | `[t1, t2, ...]` of valid tags is read back as exactly that list |
| Decimal.NatToStringValue | text_processing.py:50 | the printed number reads back as the number |
| Decimal.UnsignedDecimalAccepts | text_processing.py:106 | `float()` accepts a token of digits and dots exactly when it is a decimal numeral |
| Decimal.ParseFloatAccepts | text_processing.py:159 | the accepted forms are an optional sign followed by a decimal numeral |
| Decimal.FormatFourPlacesChars | image_processing.py:96 | the printed value is a minus sign (exactly for negatives) followed by digits and a dot |
| Decimal.FormatFourPlacesRoundTrip | image_processing.py:96 | `float()` of the printed value of `k / 10000` is `k / 10000` |
| Ranking.Positive | text_processing.py:188 | keeps exactly the candidates scoring above zero, as a sub-multiset of the input |
| Ranking.Insert | text_processing.py:196 | inserting into a sorted list keeps it sorted, adds exactly the candidate and puts it ahead of those of equal score |
| Ranking.SortByScore | text_processing.py:196 | sorted by score descending, a permutation of the input, each score's candidates in input order |
| Ranking.Slice | text_processing.py:197 | a prefix whose length is Python's `s[:m]` length, negative `m` included |
| Ranking.Top | text_processing.py:188-197 | only positive candidates of the input, sorted, at most `max_photos`, with the length Python's slice gives |
| Ranking.Paths | text_processing.py:200 | the i-th path is the i-th candidate's file path |
| Ranking.WithScoreOfPositive | text_processing.py:188 | the filter keeps all candidates of a positive score, in order, and none of the others |
| Ranking.TopStable | text_processing.py:196-197 | the returned candidates of each score come first among the input's candidates of that score, in input order |
| Ranking.TopKeepsBest | text_processing.py:196-197 | a positive candidate left out scores at most as much as each candidate kept |
| Ranking.PathInTop | text_processing.py:200 | each returned path belongs to an input candidate with a positive score |
| Ranking.TopEmpty | text_processing.py:188-197 | the result is empty exactly when nothing is positive, `max_photos` is 0 or a negative `max_photos` cuts off everything |
| Ranking.TopUnderFull | text_processing.py:197 | when fewer than `max_photos` come back, every positive candidate is among them |
| Ranking.TopScale | llama_ui/text_processing.py:64 | multiplying every score by a positive factor leaves the ranking and its paths unchanged |
| TextProcessing.Bracketed | text_processing.py:73-76 | the span found occurs in the reply with line breaks deleted |
| TextProcessing.ParseTags | text_processing.py:67-79 | `None` exactly when there is no bracketed span; otherwise lower-case valid tags, each a substring of the span and of the cleaned reply |
| TextProcessing.ParseTagsRoundTrip | text_processing.py:67-79 | a bracketed list of lower-case tags within any prose without stray brackets is read back exactly |
| TextProcessing.ParseEach | text_processing.py:106 | succeeds exactly when every token converts, and then holds each token's value in order |
| TextProcessing.LocationTokens | text_processing.py:105 | every token is non-empty digits and dots |
| TextProcessing.ParseLocation | text_processing.py:102-108 | the only exception is `ValueError`, and a parsed coordinate is never negative |
| TextProcessing.ParseLocationOutcome | text_processing.py:102-108 | raises exactly when a token is not a numeral; `None` exactly without a span or with a token count other than two; otherwise the two tokens' values |
| TextProcessing.ParseLocationRoundTrip | text_processing.py:102-108 | `[lat, lon]` printed to four places reads back as the magnitudes, the minus signs being dropped |
| TextProcessing.DateTokens | text_processing.py:117 | every token is a non-empty run of digits |
| TextProcessing.ParseDate | text_processing.py:114-120 | a date exactly when there is a span with three digit runs, and then their values in order |
| TextProcessing.ParseDateRoundTrip | text_processing.py:114-120 | `[YYYY:MM:DD]` within prose is read back as its three numbers |
| TextProcessing.ProcessInput | text_processing.py:60-130 | without metadata `(tags, None, None)`; with it, raises exactly when the location raises, else the three parts |
| TextProcessing.Pow5 | text_processing.py:12 | at least 1, and at least `METADATA_STRICTNESS` for a positive exponent |
| TextProcessing.DateAxisScoreRange | text_processing.py:172-174 | distance 0 gives the full factor; any other is positive and at most a fifth of it |
| TextProcessing.DateAxisScoreDecreasing | text_processing.py:172-174 | a farther value scores strictly less, and still above zero |
| TextProcessing.DecayExists | text_processing.py:162-163 | the assumptions made about `5 ** -x` can be met |
| TextProcessing.LocationAxisScoreRange | text_processing.py:162-163 | distance 0 gives `LOCATION_FACTOR`; any other is strictly between 0 and it |
| TextProcessing.LocationAxisScoreDecreasing | text_processing.py:162-163 | a farther coordinate scores strictly less, and still above zero |
| TextProcessing.MatchCount | text_processing.py:180 | at most the number of the photo's tags |
| TextProcessing.MatchCountZero | text_processing.py:180 | zero exactly when no photo tag is requested |
| TextProcessing.MatchCountFull | text_processing.py:180 | every photo tag counts exactly when every one is requested |
| TextProcessing.MatchCountSameTags | text_processing.py:180 | only the set of requested tags matters, not their order or repeats |
| TextProcessing.MatchCountShared | text_processing.py:180 | for distinct photo tags, the count is the size of the shared set |
| TextProcessing.PhotoLocation | text_processing.py:159 | `ValueError` unless the string has exactly two comma pieces, each a number; otherwise their values |
| TextProcessing.PhotoLocationRoundTrip | text_processing.py:159 | `lat,lon` printed to four places is read back exactly |
| TextProcessing.PhotoDate | text_processing.py:169-170 | `TypeError` for an all-space timestamp, `ValueError` unless the first word has three digit runs |
| TextProcessing.LocationScore | text_processing.py:158-164 | 0 unless both the photo and the request have a location; raises exactly when the photo's location does not parse |
| TextProcessing.DateScore | text_processing.py:168-175 | 0 unless both have a date; raises exactly when the photo's timestamp does not parse |
| TextProcessing.TagScore | text_processing.py:180 | raises `TypeError` exactly when the request has no tags and the photo has some; otherwise `MATCH_FACTOR` times the count |
| TextProcessing.PhotoScore | text_processing.py:155-181 | raises exactly when a part raises; otherwise the sum of the three parts |
| TextProcessing.PhotoScoreBounds | text_processing.py:155-181 | never negative, never above two location factors, three date factors and `MATCH_FACTOR` per tag |
| TextProcessing.PhotoScorePerfect | text_processing.py:155-181 | a photo at the requested place and date whose tags are all requested reaches that maximum |
| TextProcessing.PhotoScoreTagsOnly | text_processing.py:155-181 | without location and date the score is `MATCH_FACTOR` times the count |
| TextProcessing.FirstFailure | text_processing.py:148-184 | every result before the position is a value, and the one at it an exception |
| TextProcessing.ScoreAll | text_processing.py:148-184 | succeeds exactly when every photo scores, and then holds one `(score, path)` per photo in order |
| TextProcessing.ScoreAllFirstError | text_processing.py:148-184 | the exception is that of the first photo whose score raises |
| TextProcessing.ScoreAllOfScores | text_processing.py:148-184 | one `(score, path)` per photo, each scoring, is the loop's list |
| TextProcessing.Search | text_processing.py:133-201 | the loop, filter, sort and slice return the paths of the top candidates, or the first photo's exception |
| TextProcessing.SearchRaises | text_processing.py:133-201 | raises exactly when scoring some photo raises |
| TextProcessing.SearchWithoutTagsRaises | text_processing.py:76-82 | a query without tags makes `search` raise once a photo has tags |
| TextProcessing.SearchReturnsScoringPhotos | text_processing.py:188-200 | at most `max_photos` paths, each of a photo that scored above zero |
| TextProcessing.SearchOmitsOnlyWhenFull | text_processing.py:188-197 | a photo scoring above zero is left out only when `max_photos` paths came back, each scoring at least as much |
| TextProcessing.SearchEmpty | text_processing.py:188-197 | nothing comes back exactly when no photo scores above zero or the slice cuts off everything |
| TextProcessing.PyIndex | text_processing.py:37 | Python list indexing: negative indices count from the end, anything else outside the list raises `IndexError` |
| TextProcessing.MonthName | text_processing.py:35-37 | months 1 to 12 give their names, 0 gives December, a larger month raises `IndexError` |
| TextProcessing.Clock12RoundTrip | text_processing.py:42-50 | every hour of the day shows as 1 to 12 with AM or PM that reads back as that hour |
| TextProcessing.To24RoundTrip | text_processing.py:42-50 | every 12-hour time is shown for exactly one hour of the day |
| TextProcessing.TimestampToReadable | text_processing.py:30-52 | the only exceptions are `ValueError` and `IndexError` |
| TextProcessing.TimestampToReadableOfFields | text_processing.py:30-52 | `Y:M:D h:m:s` gives the month name, day, year, 12-hour clock and minutes without padding |
| TextProcessing.TimestampToReadableBadMonth | text_processing.py:36-37 | a month past 12 raises `IndexError` |
| LlamaTextProcessing.ValidatePathOfName | llama_ui/text_processing.py:7-21 | `stem.ext` is accepted exactly when `ext` is one of the image or video types |
| LlamaTextProcessing.ValidatePathCaseSensitive | llama_ui/text_processing.py:13-16 | `JPG` and `MP4` are refused |
| LlamaTextProcessing.ParseTags | llama_ui/text_processing.py:42-47 | raises `TypeError` exactly when the cleaned reply does not open with a bracketed list; otherwise valid tags, each a substring of that bracketed list and so of the cleaned reply |
| LlamaTextProcessing.ParseTagsNeedsLeadingBracket | llama_ui/text_processing.py:45 | any reply not starting with `[` raises, even after a single space |
| LlamaTextProcessing.ParseTagsRoundTrip | llama_ui/text_processing.py:42-47 | a list opening the reply is read back exactly, case kept |
| LlamaTextProcessing.MatchCounts | llama_ui/text_processing.py:58-67 | one `(count, path)` per photo, in order |
| LlamaTextProcessing.Search | llama_ui/text_processing.py:53-85 | the loop, filter, sort and slice return `None` when nothing is positive, else the paths of the top candidates |
| LlamaTextProcessing.SearchNone | llama_ui/text_processing.py:71-77 | `None` exactly when no photo has a requested tag |
| LlamaTextProcessing.SearchReturnsMatchingPhotos | llama_ui/text_processing.py:80-85 | at most `max_photos` paths, each of a photo sharing a tag with the request |
| LlamaTextProcessing.SearchAgreesWithTagsOnlyQuery | llama_ui/text_processing.py:53-85 | the later search with only tags returns the same paths as this one |
| ImageProcessing.ValidatePathOfName | image_processing.py:12-24 | `stem.ext` is accepted exactly when `ext` is one of the eleven extensions |
| ImageProcessing.ValidatePathImagesOnly | image_processing.py:12-24 | accepts exactly the image types of the older check, and refuses its video types |
| ImageProcessing.Values | image_processing.py:82-84 | the values of the GPS items, in order |
| ImageProcessing.DmsToDegrees | image_processing.py:86 | a value exactly for three or more numbers; otherwise `IndexError` or `TypeError` as Python raises them |
| ImageProcessing.Coordinate | image_processing.py:86-91 | the degrees, negated exactly when the reference is the negative letter |
| ImageProcessing.NegatedZero | image_processing.py:87-91 | the coordinate is `-0.0` exactly when the reference is the negative letter and the angle is zero |
| ImageProcessing.CoordinateValue | image_processing.py:86-89 | degrees + minutes / 60 + seconds / 3600, signed by the reference |
| ImageProcessing.CoordinateSign | image_processing.py:87-91 | negative exactly for the negative letter and a non-zero angle; any other reference leaves it non-negative |
| ImageProcessing.RoundHalfEvenProperties | image_processing.py:93-94 | whole values stay; halves go to the even neighbour; everything else goes to the nearest |
| ImageProcessing.RoundedClose | image_processing.py:93-94 | rounding moves a coordinate by at most half a ten-thousandth |
| ImageProcessing.FormatRoundedRoundTrip | image_processing.py:93-96 | `float()` reads the printed rounded value back, `-0.0` included |
| ImageProcessing.FormatLocationRoundTrip | image_processing.py:96 | `search` splits the stored `lat,lon` back into the two rounded coordinates |
| ImageProcessing.LocationText | image_processing.py:75-98 | an empty or missing directory gives `None` |
| ImageProcessing.LocationTextOutcome | image_processing.py:81-96 | sizes other than 6 and 4 raise `UnboundLocalError`; otherwise the first exception of the two coordinates or their printed pair, a negated zero angle printed as `-0.0` |
| ImageProcessing.LocationTextRoundTrip | image_processing.py:75-96 | a four-entry directory gives the signed, rounded coordinates, which `search` reads back |
| ImageProcessing.LocationTextNegatedZero | image_processing.py:86-96 | a zero latitude under `S` is stored with a leading `-0.0,` and read back as zero |
| ImageProcessing.LocationTextSouthernZero | image_processing.py:81-96 | `{1: 'S', 2: (0, 0, 0), 3: 'E', 4: (1, 0, 0)}` is stored as `-0.0,1.0` |
| ImageProcessing.LastNamedIsLast | image_processing.py:68-72 | the last item with the name is the value kept |
| ImageProcessing.GetImageMetadata | image_processing.py:50-103 | the loop and the conversion give the location text and the timestamp, `KeyError` for an unnamed tag |
| ImageProcessing.MetadataWithoutExif | image_processing.py:54-65 | no Exif data gives `(None, None)` |
| ImageProcessing.MetadataMissingParts | image_processing.py:75-101 | no `GPSInfo` gives location `None`; no `DateTime` gives timestamp `None` |
| ImageProcessing.MetadataUnknownTag | image_processing.py:69 | a tag id missing from the name table raises `KeyError` |
| FaceProcessing.ValidatePathOfName | face_processing.py:23-34 | `stem.ext` is accepted exactly when `ext` is one of the seven extensions |
| FaceProcessing.ValidatePathWithinImages | face_processing.py:23-34 | every face-detector path is an object-detector path; `dng`, `mpo`, `heic` and `pfm` are only the latter |
| FaceProcessing.DetectImage | face_processing.py:45-55 | the image is returned; an unsupported path gives no faces; a supported one gives the detector's faces |
| FaceProcessing.DetectImageSkipsDetector | face_processing.py:49-55 | for an unsupported path the detector plays no part |
| FaceProcessing.MatchesMembers | face_processing.py:90-97 | the names are exactly those of the saved faces with similarity above 0.5 |
| FaceProcessing.MatchesConcat | face_processing.py:90-97 | names come in saved-face order |
| FaceProcessing.FaceLabelsLength | face_processing.py:87-103 | each face adds at least one label, and exactly one when it matches at most one saved face |
| FaceProcessing.LabelFaces | face_processing.py:77-105 | the nested loops build the labels face after face |
| FaceProcessing.LabelsLength | face_processing.py:85-103 | at least one label per face, and exactly one per face exactly when no face matches two saved faces |
| FaceProcessing.LabelsOnePerFace | face_processing.py:99-103 | in that case the i-th label is the i-th face's match or `None` |
| FaceProcessing.LabelsWithoutSavedFaces | face_processing.py:80-103 | with no saved faces, one `None` per face |
| FaceProcessing.LabelsAreMatchingNames | face_processing.py:90-97 | every name among the labels belongs to a saved face matching one of the faces |
| FaceProcessing.LabelsMisaligned | face_processing.py:85-103 | two faces, the first matching two saved faces: the second face's position holds a name although it matches nobody |
| FaceProcessing.FirstMatchLabels | face_processing.py:99-101 | exactly one label per face |
| FaceProcessing.FirstMatchLabelsAligned | face_processing.py:99-101 | the i-th label is `None` exactly when the i-th face matches nobody, else the first matching saved face's name |
| FaceProcessing.FirstMatchLabelsAgree | face_processing.py:85-103 | where no face matches two saved faces, `label_faces` already gives these labels |

## Left out

- The language model calls, the prompt texts, `datetime.now` and all
  printing: the replies are parameters.
- Storage: the photo records and the saved faces are parameters. The
  database builds five-field photo records (`database_manager.py:104`),
  while `search` unpacks six (`text_processing.py:150`). The model keeps
  the four fields `search` reads.
- `\w`, `\d` and `str.lower()` are modelled on ASCII only.
- `float()` is modelled for an optional sign followed by digits with at
  most one dot. Exponents, `inf`, `nan`, underscores and surrounding
  whitespace are not modelled.
- Arithmetic is on exact reals. IEEE rounding is not modelled, nor the
  underflow of `5 ** -x` to `0.0` for very distant values. On the real
  numbers every axis score is positive.
- TextProcessing.LocationAxisScore: `5 ** -x` on a real distance is the
  parameter `decay`, constrained only by `IsDecay`: 1 at 0, within (0, 1]
  and strictly decreasing. The exact power is not modelled.
- ImageProcessing.FormatRounded: printing a float uses the shortest repr
  of an IEEE double. The model prints the exact rounded value with at
  most four decimals and without exponent notation.
- ImageProcessing.NegatedZero: the sum of degrees, minutes and seconds
  is taken to be `+0.0` when it is zero. Exif rationals are never
  negative zero, so only the sign that `*= -1` gives is modelled.
- The sort is modelled as a functional stable insertion sort on a
  sequence, not as Python's in-place `list.sort`.
- `location_to_readable` (`text_processing.py:20-26`) is not part of
  this model. It only formats values for display.
- `detect_image` of the object detector (`image_processing.py:27-47`) is
  not part of this model. It only collects the labels that the detector
  returns.
- Opening the image and decoding its Exif block are left out. The model
  starts from the decoded `(tag id, value)` items and the library's table
  of tag names, both parameters. Exif values are limited to text, tuples
  of numbers, the GPS directory and "other".
- InsightFace, `cv2.imread`, `app.get` and the numpy cosine similarity
  are parameters. `get_face_thumbnails` and the embedding blob
  conversions are left out, because they are image and byte handling
  with no logic of their own.
- TextProcessing.TimestampToReadable: `int()` cannot fail on a digit
  run, so only the unpacking errors (`ValueError`) and the month index
  (`IndexError`) are modelled. The month is looked up before the time
  part's digit runs are counted, as in the source.

## Findings

| source | as written | input that shows it | evidently intended | confidence | as-written member | corrected member |
|---|---|---|---|---|---|---|
| face_processing.py:85-103 | a face whose similarity exceeds 0.5 with k ≥ 2 saved faces adds k labels, so every later face's label is shifted | faces `[0, 1]`, saved `[("Alice", 0), ("Bob", 0)]`, similarity 1.0 only between 0 and 0: labels `[Alice, Bob, None]` | one label per face, as the comment at lines 99-101 says: the first matching name or `None` (FaceProcessing.FirstMatchLabelsAligned), agreeing with the code wherever no face matches twice (FaceProcessing.FirstMatchLabelsAgree) | not executed | FaceProcessing.LabelsMisaligned | FaceProcessing.FirstMatchLabels |
