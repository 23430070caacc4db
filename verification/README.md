# Video store catalog: validation and create/show

A Dafny model of the catalog core of a small video-rental API. It covers the
`Video` record's five validation rules, and the create and show operations that
run on top of them.

- `Wrappers` (`wrappers.dfy`): `Option` for absent or null request values, and `Result`.
- `Text` (`text.dfy`): what the rules check on raw request text.
  - Rails' `blank?`: `nil`, or only characters of Ruby's `[[:space:]]` class.
  - The `only_integer` grammar `[+-]?digits`: `ParseInteger` reads it and
    `FormatInteger` inverts it.
- `Videos` (`video.rb` → `video.dfy`): a create request is a record of five
  optional text fields. `Validate` returns a map from each failing field to its
  error tags.
  - `title`, `overview` and `release_date` must not be blank.
  - `total_inventory` and `available_inventory` must be present, an integer
    literal, and at least zero.
  - `Acceptable` states each rule again, independently, on the characters of
    the value. The lemmas tie the two definitions together.
- `CatalogService` (`catalog.dfy`): the store is a sequence of videos plus the
  next id to assign (ids start at 1).
  - `Create` appends only a valid request. Otherwise it returns the error map
    and leaves the store as it was.
  - `Show` returns the stored video, or `NotFound`.
  - `Valid` is the invariant the store keeps: ids are positive, increasing and
    unique, and every stored video passes validation again.
- `ControllerExamples` (`examples.dfy`): the concrete requests and lookups
  from the videos controller tests.

Request values are modelled as text because the controller tests send the
counts as form parameters. A stored video holds the counts as natural numbers.
The create test that expects a rejection wraps its fields under a `video` key.
The create operation reads a flat field set, so in that test every field is
absent, not only `title`. `NestedPayloadIsRejected` models that case and
`NullTitleIsRejected` models the null title alone. Both give `title` the
"can't be blank" tag.

## Model

| member | source | states |
|---|---|---|
| Text.IsBlank | app/models/video.rb:4-8 | the reference definition of a missing value, Rails' `blank?`: nil, or text made only of Unicode White_Space characters (the empty string included) |
| Text.IsIntegerLiteral | app/models/video.rb:7-8 | the reference definition of the `only_integer` grammar `\A[+-]?\d+\z`: an optional sign, then one or more ASCII digits, and nothing else |
| Text.ParseInteger | app/models/video.rb:7-8 | a value is accepted as an integer exactly when it matches `[+-]?digits`; the number is the right-to-left value of the digits, negated after a leading '-'; it is negative exactly when a minus sign stands before a non-zero magnitude |
| Text.ScanIsDigitsValue | app/models/video.rb:7-8 | the left-to-right digit scan and the right-to-left digit value agree on every digit string |
| Text.LeadingZeroValue | app/models/video.rb:7-8 | a leading zero does not change the value of a digit string |
| Text.ParseLenientSpellings | app/models/video.rb:7-8 | an explicit '+' and a leading zero leave the parsed number unchanged ("+6" and "06" are 6), and a minus sign before zeros gives 0 |
| Text.ScanDigits | app/models/video.rb:7-8 | a digit scan succeeds exactly when every character is an ASCII digit, and never yields less than it started with |
| Text.ScanIsZeroIff | app/models/video.rb:7-8 | a digit string is worth zero exactly when all its digits are '0'; this is what makes "-0" non-negative |
| Text.ParseFormatRoundTrip | app/models/video.rb:7-8 | parsing the decimal spelling of any integer gives back that integer |
| Text.IntegerLiteralNotBlank | app/models/video.rb:7-8 | a value that passes the integer check also passes the presence check |
| Videos.PresenceErrors | app/models/video.rb:4-6 | `presence: true` reports `Blank` exactly when the value is nil, empty or whitespace only |
| Videos.NumericalityErrors | app/models/video.rb:7-8 | the numericality rule reports `NotAnInteger` exactly when the value is missing or not an integer literal, and `Negative` exactly when it is a negative integer; it never reports both |
| Videos.RuleErrors | app/models/video.rb:4-8 | a field's rules report nothing exactly when its value is acceptable on its own |
| Videos.Validate | app/models/video.rb:4-8 | the error map's keys are exactly the fields whose values the rules reject; a passing field never has an entry |
| Videos.ValidIffAllAcceptable | app/models/video.rb:4-8 | a request is valid exactly when each of its five fields is acceptable |
| Videos.TextFieldErrors | app/models/video.rb:4-6 | a missing or blank title, overview or release date gives an entry under that field, and that entry is exactly "can't be blank" |
| Videos.CountFieldErrors | app/models/video.rb:7-8 | a count has an entry exactly when it does not spell a non-negative integer; the entry has `Blank` iff the count is blank, `NotAnInteger` iff it is not an integer literal, and `Negative` iff it is a negative integer |
| Videos.CountAcceptedIffParsesNonNegative | app/models/video.rb:7-8 | a count is acceptable exactly when it parses as an integer that is at least zero |
| Videos.RulesIndependent | app/models/video.rb:4-8 | changing one field leaves every other field's entry in the error map exactly as it was |
| Videos.CountsUnrelated | app/models/video.rb:7-8 | any two non-negative counts are valid together, including an available count above the total |
| Videos.EmptyRequestReportsEveryField | app/models/video.rb:4-8 | a request with every field absent reports all five fields at once; each count gets both `Blank` and `NotAnInteger` |
| CatalogService.Find | test/controllers/videos_controller_test.rb:66-96 | returns the position of the first video with the id, or nothing exactly when no stored video has that id |
| CatalogService.Show | test/controllers/videos_controller_test.rb:66-96 | a found video is a stored video with the requested id; the result is `NotFound` exactly when no stored video has that id |
| CatalogService.CountValue | app/models/video.rb:7-8 | the count stored for an accepted value is the value of its digits; a minus sign is only accepted before zeros, so it never changes the number |
| CatalogService.Create | test/controllers/videos_controller_test.rb:99-145 | succeeds exactly when validation reports no errors; if so it appends one video under the next id, holding the submitted texts and the submitted counts' values, and keeps the earlier videos; if not, the store is unchanged and the result is the non-empty error map |
| CatalogService.StoredVideoRevalidates | app/models/video.rb:4-8 | a created video, rendered back as a request, passes validation again |
| CatalogService.AppendPreservesValid | test/controllers/videos_controller_test.rb:100-117 | adding a valid video under the next id keeps ids positive, increasing and unique, and keeps every stored video valid |
| CatalogService.CreatePreservesValid | test/controllers/videos_controller_test.rb:99-145 | creating, whether or not it succeeds, keeps the store invariant |
| CatalogService.ShowReturnsStored | test/controllers/videos_controller_test.rb:67-85 | in a store that keeps the invariant, showing a stored video's id returns that video unchanged |
| CatalogService.UnknownIdNotFound | test/controllers/videos_controller_test.rb:87-96 | an id below 1, or one the store has not yet assigned, is `NotFound` |
| CatalogService.CreateThenShow | test/controllers/videos_controller_test.rb:100-117 | after a valid create, showing the returned id gives the submitted title, overview and release date and the submitted counts' values |
| CatalogService.CreateKeepsOtherLookups | test/controllers/videos_controller_test.rb:113-137 | creating changes the answer of no lookup other than the new id |
| ControllerExamples.AlfIsCreated | test/controllers/videos_controller_test.rb:100-117 | the "Alf the movie" request with counts 6 and 6 is valid; posting it adds exactly one video, which shows with those values |
| ControllerExamples.NullTitleIsRejected | test/controllers/videos_controller_test.rb:120-145 | the same request with a null title leaves the store unchanged, and its error map is exactly `title` → can't be blank |
| ControllerExamples.NestedPayloadIsRejected | test/controllers/videos_controller_test.rb:120-145 | with every field absent, the store is unchanged, every field is reported, and `title` is reported as can't be blank |
| ControllerExamples.MinusOneIsNotFound | test/controllers/videos_controller_test.rb:87-96 | looking up id -1 is `NotFound` in any store that keeps the invariant |

## Left out

- Videos.NumericalityErrors: has one tag, `NotAnInteger`, for two Rails failures. Rails reports "is not a number" for a missing value, one that `Kernel.Float` rejects, or a hexadecimal literal such as "0x1A". It reports "must be an integer" for a number that is not an integer, such as "1.5". Telling them apart would mean modelling Ruby's float grammar, and every such value fails the rule either way.
- CatalogService.Create: counts are unbounded. The database column's integer range is not modelled, nor is the error raised when saving an out-of-range count. The database schema is not part of this model. The validation rule itself has no upper bound, so a huge count passes `Validate` and `Create` stores it.
- Error message strings: only `Blank` has a message fixed by the tests ("can't be blank"). The other messages come from the framework's translation files, which are not part of this model, so they are abstract tags.
- Request values that are JSON numbers rather than text: every value is modelled as the text of a form parameter.
- The `release_date` date type: the database schema is not part of this model, so the release date is text that must be non-blank. Any casting of an unparseable date to nil is not modelled.
- Whitespace: blankness uses the Unicode White_Space characters that Ruby's `[[:space:]]` matches. Ruby's own string encodings are not modelled.
- Listing videos (`GET /videos`) and its `sort` parameter: the controller is not part of this model, and the tests compare only the first two elements.
- The JSON field selection of responses, the HTTP status codes (201, 400, 404) and the "Not Found" body: these are framework plumbing. `Result.Failure` and `NotFound` stand for those responses.
- The `has_many :rentals` association, customers, and the rental check-out and check-in routes: no behaviour for them is shown.
- Persistence, transactions and concurrent requests: the store is a value threaded through `Create` and `Show`. Ids come from a counter that starts at 1, standing in for the database's auto-increment.
