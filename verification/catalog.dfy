/** The video catalog behind the create and show endpoints: a sequence of
    stored videos with store-assigned ids, threaded through `Create` and `Show`. */
module CatalogService {
  import opened Wrappers
  import opened Text
  import opened Videos

  /** A stored video. The counts are typed as natural numbers: only requests
      that pass validation are ever stored. */
  datatype Video = Video(
    id: int,
    title: string,
    overview: string,
    releaseDate: string,
    totalInventory: nat,
    availableInventory: nat)

  /** The store: videos in order of creation, and the id the next one receives. */
  datatype Catalog = Catalog(videos: seq<Video>, nextId: int)

  /** The only failure of a lookup, reported to clients as "Not Found". */
  datatype ShowError = NotFound

  /** A fresh store: no videos, ids start at 1. */
  const Empty: Catalog := Catalog([], 1)

  /** A stored video rendered back as a create request. */
  function AsParams(v: Video): VideoParams {
    VideoParams(Some(v.title), Some(v.overview), Some(v.releaseDate),
                Some(FormatInteger(v.totalInventory)), Some(FormatInteger(v.availableInventory)))
  }

  /** What the store maintains: ids are positive, below `nextId`, and strictly
      increasing in creation order; every stored video passes validation. */
  ghost predicate Valid(c: Catalog) {
    && c.nextId >= 1
    && (forall i :: 0 <= i < |c.videos| ==> 1 <= c.videos[i].id < c.nextId)
    && (forall i, j :: 0 <= i < j < |c.videos| ==> c.videos[i].id < c.videos[j].id)
    && (forall i :: 0 <= i < |c.videos| ==> IsValid(AsParams(c.videos[i])))
  }

  /** The position of the first video with the given id. */
  function Find(videos: seq<Video>, id: int): (r: Option<nat>)
    ensures r.Some? ==> r.value < |videos| && videos[r.value].id == id
    ensures r.Some? ==> forall j :: 0 <= j < r.value ==> videos[j].id != id
    ensures r.None? <==> forall j :: 0 <= j < |videos| ==> videos[j].id != id
    decreases |videos|
  {
    if |videos| == 0 then None
    else if videos[0].id == id then Some(0)
    else
      match Find(videos[1..], id)
      case None => None
      case Some(k) => Some(k + 1)
  }

  /** GET /videos/:id. */
  function Show(c: Catalog, id: int): (r: Result<Video, ShowError>)
    ensures r.Success? ==> r.value in c.videos && r.value.id == id
    ensures r.Failure? <==> forall j :: 0 <= j < |c.videos| ==> c.videos[j].id != id
  {
    match Find(c.videos, id)
    case Some(k) => Success(c.videos[k])
    case None => Failure(NotFound)
  }

  /** The count a validated request carries: the value of its digits, since
      a minus sign is only accepted in front of zeros. */
  function CountValue(v: Option<string>): (n: nat)
    requires v.Some? && IsNonNegativeInteger(v.value)
    ensures n == DigitsValue(Magnitude(v.value))
  {
    ParseInteger(v.value).value
  }

  /** POST /videos. A valid request is appended under the next id, which is
      returned; an invalid one leaves the store as it was and returns the
      error map. */
  function Create(c: Catalog, p: VideoParams): (r: (Catalog, Result<int, Errors>))
    ensures r.1.Success? <==> IsValid(p)
    ensures r.1.Failure? ==> r.0 == c && r.1.error == Validate(p) && r.1.error != map[]
    ensures r.1.Success? ==>
      && r.1.value == c.nextId
      && r.0.nextId == c.nextId + 1
      && |r.0.videos| == |c.videos| + 1
      && r.0.videos[..|c.videos|] == c.videos
      && var v := r.0.videos[|c.videos|];
         && v.id == r.1.value
         && Some(v.title) == p.title
         && Some(v.overview) == p.overview
         && Some(v.releaseDate) == p.releaseDate
         && ParseInteger(p.totalInventory.value) == Some(v.totalInventory)
         && ParseInteger(p.availableInventory.value) == Some(v.availableInventory)
  {
    var errors := Validate(p);
    if errors != map[] then (c, Failure(errors))
    else
      ValidIffAllAcceptable(p);
      assert Acceptable(Title, p.Get(Title)) && Acceptable(Overview, p.Get(Overview));
      assert Acceptable(ReleaseDate, p.Get(ReleaseDate));
      assert Acceptable(TotalInventory, p.Get(TotalInventory));
      assert Acceptable(AvailableInventory, p.Get(AvailableInventory));
      var v := Video(c.nextId, p.title.value, p.overview.value, p.releaseDate.value,
                     CountValue(p.totalInventory), CountValue(p.availableInventory));
      (Catalog(c.videos + [v], c.nextId + 1), Success(c.nextId))
  }

  /** A video that passed validation still passes when rendered back as a
      request: the text fields are unchanged and the counts re-spell as
      non-negative integers. */
  lemma {:induction false} StoredVideoRevalidates(c: Catalog, p: VideoParams)
    requires IsValid(p)
    ensures IsValid(AsParams(Create(c, p).0.videos[|c.videos|]))
  {
    var v := Create(c, p).0.videos[|c.videos|];
    ValidIffAllAcceptable(p);
    assert !IsBlank(p.Get(Title)) && !IsBlank(p.Get(Overview)) && !IsBlank(p.Get(ReleaseDate));
    CountsUnrelated(v.title, v.overview, v.releaseDate, v.totalInventory, v.availableInventory);
  }

  /** Appending a video that passes validation under the next id keeps the
      store's invariant. */
  lemma AppendPreservesValid(c: Catalog, v: Video)
    requires Valid(c) && v.id == c.nextId && IsValid(AsParams(v))
    ensures Valid(Catalog(c.videos + [v], c.nextId + 1))
  {
    var c' := Catalog(c.videos + [v], c.nextId + 1);
    var n := |c.videos|;
    forall i, j | 0 <= i < j < |c'.videos|
      ensures c'.videos[i].id < c'.videos[j].id
    {
      if j == n {
        assert c'.videos[i].id == c.videos[i].id < c.nextId;
      } else {
        assert c'.videos[i] == c.videos[i] && c'.videos[j] == c.videos[j];
      }
    }
  }

  /** Creating keeps the store's invariant. */
  lemma CreatePreservesValid(c: Catalog, p: VideoParams)
    requires Valid(c)
    ensures Valid(Create(c, p).0)
  {
    if IsValid(p) {
      var c' := Create(c, p).0;
      var n := |c.videos|;
      StoredVideoRevalidates(c, p);
      assert c'.videos == c.videos + [c'.videos[n]] by {
        assert c'.videos == c'.videos[..n] + [c'.videos[n]];
      }
      AppendPreservesValid(c, c'.videos[n]);
    }
  }

  /** In a valid store every stored video is found by its own id, unchanged. */
  lemma ShowReturnsStored(c: Catalog, i: int)
    requires Valid(c) && 0 <= i < |c.videos|
    ensures Show(c, c.videos[i].id) == Success(c.videos[i])
  {
    var k := Find(c.videos, c.videos[i].id).value;
    assert !(k < i) && !(i < k);
  }

  /** Ids the store never handed out are not found; -1 is one of them. */
  lemma UnknownIdNotFound(c: Catalog, id: int)
    requires Valid(c) && (id < 1 || id >= c.nextId)
    ensures Show(c, id) == Failure(NotFound)
  {
  }

  /** A created video can be shown under the returned id, holding the
      submitted title, overview and release date and the submitted counts'
      values. */
  lemma CreateThenShow(c: Catalog, p: VideoParams)
    requires Valid(c) && IsValid(p)
    ensures
      var (c', r) := Create(c, p);
      && r.Success?
      && Show(c', r.value).Success?
      && var v := Show(c', r.value).value;
         && v.id == r.value
         && Some(v.title) == p.title && Some(v.overview) == p.overview
         && Some(v.releaseDate) == p.releaseDate
         && ParseInteger(p.totalInventory.value) == Some(v.totalInventory)
         && ParseInteger(p.availableInventory.value) == Some(v.availableInventory)
  {
    CreatePreservesValid(c, p);
    ShowReturnsStored(Create(c, p).0, |c.videos|);
  }

  /** Creating, valid or not, changes the answer of no earlier lookup: every
      other id shows what it showed before. */
  lemma CreateKeepsOtherLookups(c: Catalog, p: VideoParams, id: int)
    requires Valid(c) && id != c.nextId
    ensures Show(Create(c, p).0, id) == Show(c, id)
  {
    var c' := Create(c, p).0;
    if IsValid(p) {
      assert forall j :: 0 <= j < |c.videos| ==> c'.videos[j] == c.videos[j];
      match Find(c.videos, id)
      case Some(k) =>
        ShowReturnsStored(c, k);
        CreatePreservesValid(c, p);
        ShowReturnsStored(c', k);
      case None =>
    }
  }
}
