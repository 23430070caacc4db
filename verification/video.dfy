/** The Video record's validation rules (app/models/video.rb): `title`,
    `overview` and `release_date` must be present; `total_inventory` and
    `available_inventory` must be present, integers, and at least zero.
    Every rule looks at one field only, and every failing field is reported. */
module Videos {
  import opened Wrappers
  import opened Text

  /** The five attributes a client supplies when creating a video. */
  datatype Field = Title | Overview | ReleaseDate | TotalInventory | AvailableInventory

  const AllFields: set<Field> := {Title, Overview, ReleaseDate, TotalInventory, AvailableInventory}

  /** The two inventory counts, which carry the numericality rule as well. */
  predicate IsCount(f: Field) {
    f == TotalInventory || f == AvailableInventory
  }

  /** The JSON key under which a field is sent and under which its errors are reported. */
  function FieldName(f: Field): string {
    match f
    case Title => "title"
    case Overview => "overview"
    case ReleaseDate => "release_date"
    case TotalInventory => "total_inventory"
    case AvailableInventory => "available_inventory"
  }

  /** Abstract error tags. `Blank` is Rails' "can't be blank"; `NotAnInteger`
      stands for both "is not a number" and "must be an integer"; `Negative`
      is the failure of `greater_than_or_equal_to: 0`. */
  datatype ErrorTag = Blank | NotAnInteger | Negative

  /** The error map: each failing field with the list of its errors, in the
      order the rules report them. */
  type Errors = map<Field, seq<ErrorTag>>

  /** A create request: each field as sent by the client, or `None` when absent or null. */
  datatype VideoParams = VideoParams(
    title: Option<string>,
    overview: Option<string>,
    releaseDate: Option<string>,
    totalInventory: Option<string>,
    availableInventory: Option<string>)
  {
    function Get(f: Field): Option<string> {
      match f
      case Title => title
      case Overview => overview
      case ReleaseDate => releaseDate
      case TotalInventory => totalInventory
      case AvailableInventory => availableInventory
    }

    /** The same request with one field replaced. */
    function With(f: Field, v: Option<string>): (p: VideoParams)
      ensures p.Get(f) == v
      ensures forall g :: g != f ==> p.Get(g) == Get(g)
    {
      match f
      case Title => this.(title := v)
      case Overview => this.(overview := v)
      case ReleaseDate => this.(releaseDate := v)
      case TotalInventory => this.(totalInventory := v)
      case AvailableInventory => this.(availableInventory := v)
    }
  }

  /** Text that spells a non-negative integer: an integer literal whose minus
      sign, if any, stands in front of zeros only. */
  predicate IsNonNegativeInteger(s: string) {
    IsIntegerLiteral(s) && (HasMinus(s) ==> AllZeros(Magnitude(s)))
  }

  /** What the rules of one field accept, stated on the characters of the value. */
  predicate Acceptable(f: Field, v: Option<string>) {
    if IsCount(f) then v.Some? && IsNonNegativeInteger(v.value) else !IsBlank(v)
  }

  /** `presence: true`. */
  function PresenceErrors(v: Option<string>): (errs: seq<ErrorTag>)
    ensures Blank in errs <==> IsBlank(v)
    ensures |errs| <= 1
  {
    if IsBlank(v) then [Blank] else []
  }

  /** `numericality: { only_integer: true, greater_than_or_equal_to: 0 }`. A
      missing value is not a number; the comparison is made only on integers. */
  function NumericalityErrors(v: Option<string>): (errs: seq<ErrorTag>)
    ensures NotAnInteger in errs <==> !(v.Some? && IsIntegerLiteral(v.value))
    ensures Negative in errs <==> v.Some? && IsIntegerLiteral(v.value) && HasMinus(v.value) && !AllZeros(Magnitude(v.value))
    ensures Blank !in errs && |errs| <= 1
  {
    match v
    case None => [NotAnInteger]
    case Some(s) =>
      match ParseInteger(s)
      case None => [NotAnInteger]
      case Some(n) => if n < 0 then [Negative] else []
  }

  /** The errors the rules of field `f` report for the value `v`: presence
      first, then (for the counts) numericality. */
  function RuleErrors(f: Field, v: Option<string>): (errs: seq<ErrorTag>)
    ensures errs == [] <==> Acceptable(f, v)
  {
    if IsCount(f) then
      assert v.Some? && IsIntegerLiteral(v.value) ==> !IsBlank(v) by {
        if v.Some? && IsIntegerLiteral(v.value) {
          IntegerLiteralNotBlank(v.value);
        }
      }
      PresenceErrors(v) + NumericalityErrors(v)
    else PresenceErrors(v)
  }

  /** Runs every rule. The keys of the result are exactly the fields whose
      rules reject their value. */
  function Validate(p: VideoParams): (errors: Errors)
    ensures errors.Keys <= AllFields
    ensures forall f :: f in errors <==> !Acceptable(f, p.Get(f))
    ensures forall f :: f in errors ==> errors[f] == RuleErrors(f, p.Get(f))
  {
    map f | f in AllFields && RuleErrors(f, p.Get(f)) != [] :: RuleErrors(f, p.Get(f))
  }

  predicate IsValid(p: VideoParams) {
    Validate(p) == map[]
  }

  /** A request is valid exactly when every field satisfies its own rules. */
  lemma ValidIffAllAcceptable(p: VideoParams)
    ensures IsValid(p) <==> forall f :: Acceptable(f, p.Get(f))
  {
    if !IsValid(p) {
      var f :| f in Validate(p);
    }
  }

  /** `title`, `overview` and `release_date`: an entry appears exactly when the
      value is missing or blank, and it is the single tag `Blank`. */
  lemma TextFieldErrors(p: VideoParams, f: Field)
    requires !IsCount(f)
    ensures f in Validate(p) <==> IsBlank(p.Get(f))
    ensures f in Validate(p) ==> Validate(p)[f] == [Blank]
  {
  }

  /** The inventory counts: an entry appears exactly when the value is not the
      spelling of a non-negative integer, and each tag is there for its own
      reason. `NotAnInteger` and `Negative` never occur together. */
  lemma CountFieldErrors(p: VideoParams, f: Field)
    requires IsCount(f)
    ensures f in Validate(p) <==> !(p.Get(f).Some? && IsNonNegativeInteger(p.Get(f).value))
    ensures f in Validate(p) ==>
      var v, errs := p.Get(f), Validate(p)[f];
      && (Blank in errs <==> IsBlank(v))
      && (NotAnInteger in errs <==> !(v.Some? && IsIntegerLiteral(v.value)))
      && (Negative in errs <==> v.Some? && IsIntegerLiteral(v.value) && !IsNonNegativeInteger(v.value))
      && !(NotAnInteger in errs && Negative in errs)
  {
  }

  /** A count is accepted exactly when it parses as an integer that is at least zero. */
  lemma CountAcceptedIffParsesNonNegative(s: string)
    ensures IsNonNegativeInteger(s) <==> ParseInteger(s).Some? && ParseInteger(s).value >= 0
  {
  }

  /** The rules are independent: replacing one field's value leaves the
      verdict on every other field as it was. */
  lemma RulesIndependent(p: VideoParams, f: Field, v: Option<string>)
    ensures forall g :: g != f ==> (g in Validate(p) <==> g in Validate(p.With(f, v)))
    ensures forall g :: g != f && g in Validate(p) ==> Validate(p)[g] == Validate(p.With(f, v))[g]
  {
  }

  /** No rule relates the two counts: any two non-negative counts, in either
      order, pass together with present text fields. */
  lemma CountsUnrelated(title: string, overview: string, releaseDate: string, total: nat, available: nat)
    requires !IsBlank(Some(title)) && !IsBlank(Some(overview)) && !IsBlank(Some(releaseDate))
    ensures IsValid(VideoParams(Some(title), Some(overview), Some(releaseDate),
                                Some(FormatInteger(total)), Some(FormatInteger(available))))
  {
    ParseFormatRoundTrip(total);
    ParseFormatRoundTrip(available);
    ValidIffAllAcceptable(VideoParams(Some(title), Some(overview), Some(releaseDate),
                                      Some(FormatInteger(total)), Some(FormatInteger(available))));
  }

  /** An empty request fails every rule, and all failures are reported at once. */
  lemma EmptyRequestReportsEveryField()
    ensures Validate(VideoParams(None, None, None, None, None)) ==
      map[Title := [Blank], Overview := [Blank], ReleaseDate := [Blank],
          TotalInventory := [Blank, NotAnInteger], AvailableInventory := [Blank, NotAnInteger]]
  {
    var p := VideoParams(None, None, None, None, None);
    forall f | IsCount(f) ensures RuleErrors(f, p.Get(f)) == [Blank, NotAnInteger] {
      assert p.Get(f) == None;
    }
    assert Validate(p).Keys == AllFields;
  }
}
