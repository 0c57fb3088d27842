/** Advertisements (advertisement/models.py, advertisement/serializers.py,
    advertisement/views.py): the ad and image tables, the serial number the pre-save
    hook draws, the serializer's create and update, and the guarded views. Callers of
    the views are authenticated users; `isStaff` is their staff flag. */
module Ads {
  import opened Wrappers
  import opened HttpStatus

  type AdId = nat
  type ImageId = nat
  type UserId = nat

  datatype Status = Pending | Approved | Rejected

  /** An `Advertisement` row. */
  datatype Ad = Ad(
    user: UserId,
    title: Option<string>,
    description: Option<string>,
    category: Option<string>,
    views: nat,
    url: Option<string>,
    createdAt: int,
    status: Status,
    serial: string)

  /** An `AdvertisementImage` row: its ad and its stored file. */
  datatype AdImage = AdImage(ad: AdId, file: string)

  // ---------------------------------------------------------------------------
  // Serial numbers

  /** `string.ascii_uppercase + string.digits` */
  const ALPHABET := "ABCDEFGHIJKLMNOPQRSTUVWXYZ0123456789"

  newtype Pick = x: int | 0 <= x < 36

  /** One `random.choices(..., k=5)` draw, as five positions in the alphabet. */
  datatype Draw = Draw(c0: Pick, c1: Pick, c2: Pick, c3: Pick, c4: Pick)

  predicate IsSerial(s: string) {
    |s| == 5 && forall i :: 0 <= i < 5 ==> s[i] in ALPHABET
  }

  function SerialOf(d: Draw): (r: string)
    ensures IsSerial(r)
  {
    [ALPHABET[d.c0], ALPHABET[d.c1], ALPHABET[d.c2], ALPHABET[d.c3], ALPHABET[d.c4]]
  }

  /** The serial numbers already stored. */
  function UsedSerials(ads: map<AdId, Ad>): (r: set<string>)
    ensures forall id :: id in ads ==> ads[id].serial in r
    ensures forall s :: s in r ==> exists id :: id in ads && ads[id].serial == s
  {
    set id | id in ads :: ads[id].serial
  }

  /** The loop's choice: the first draw whose serial is not stored yet, or `None`
      when every draw is taken (where the source would keep drawing). */
  function FirstFresh(draws: seq<Draw>, used: set<string>): (r: Option<string>)
    ensures r.None? <==> forall i :: 0 <= i < |draws| ==> SerialOf(draws[i]) in used
    ensures r.Some? ==> IsSerial(r.value) && r.value !in used
  {
    if draws == [] then None
    else if SerialOf(draws[0]) !in used then Some(SerialOf(draws[0]))
    else
      assert forall i :: 1 <= i < |draws| ==> draws[i] == draws[1..][i - 1];
      FirstFresh(draws[1..], used)
  }

  /** The serial chosen is that of the first draw not yet stored: every earlier draw
      was taken. */
  lemma {:induction false} FirstFreshAt(draws: seq<Draw>, used: set<string>, i: nat)
    requires i < |draws| && SerialOf(draws[i]) !in used
    requires forall j :: 0 <= j < i ==> SerialOf(draws[j]) in used
    ensures FirstFresh(draws, used) == Some(SerialOf(draws[i]))
  {
    if i > 0 {
      assert SerialOf(draws[0]) in used;
      assert draws[1..][i - 1] == draws[i];
      forall j | 0 <= j < i - 1 ensures SerialOf(draws[1..][j]) in used {
        assert draws[1..][j] == draws[j + 1];
      }
      FirstFreshAt(draws[1..], used, i - 1);
    }
  }

  /** `generate_serial_number(instance)`, the pre-save hook: a non-empty serial is
      kept; an empty one is replaced by the first draw not yet stored. */
  method GenerateSerialNumber(current: string, draws: seq<Draw>, used: set<string>) returns (r: Option<string>)
    ensures current != "" ==> r == Some(current)
    ensures current == "" ==> r == FirstFresh(draws, used)
  {
    if current != "" {
      return Some(current);
    }
    var i := 0;
    while i < |draws|
      invariant 0 <= i <= |draws|
      invariant FirstFresh(draws, used) == FirstFresh(draws[i..], used)
    {
      var serial := SerialOf(draws[i]);
      assert draws[i..][0] == draws[i] && draws[i..][1..] == draws[i + 1..];
      if serial !in used {
        return Some(serial);
      }
      i := i + 1;
    }
    return None;
  }

  // ---------------------------------------------------------------------------
  // Requests

  /** A field of a partial update: left out of the request, or given (possibly as
      null). */
  datatype Field = Absent | Given(value: Option<string>)

  function Keep(f: Field, old_: Option<string>): Option<string> {
    if f.Given? then f.value else old_
  }

  datatype AdError = AuthenticationRequired | SerialsExhausted

  /** Owner or staff: who may update or delete an ad. */
  predicate MayModify(ad: Ad, caller: UserId, isStaff: bool) {
    ad.user == caller || isStaff
  }

  /** The two readings of the refusing branch of `advertisement_update` and
      `advertisement_delete`. As written it names `status.HTTP403_FORBIDDEN`, which
      DRF's `status` module does not define, so evaluating it raises AttributeError
      and the request ends in a server error; `status.HTTP_403_FORBIDDEN` was meant. */
  datatype Views = AsWritten | Corrected

  function RefusalCode(views: Views): int {
    if views == AsWritten then HTTP_500_INTERNAL_SERVER_ERROR else HTTP_403_FORBIDDEN
  }

  /** Image rows `start`, `start + 1`, ... for the files, in order. */
  function NewImages(ad: AdId, start: ImageId, files: seq<string>): (r: map<ImageId, AdImage>)
    ensures forall k :: k in r <==> start <= k < start + |files|
    ensures forall k :: k in r ==> r[k] == AdImage(ad, files[k - start])
  {
    if files == [] then map[]
    else NewImages(ad, start, files[..|files| - 1])[start + |files| - 1 := AdImage(ad, files[|files| - 1])]
  }

  /** Adding the next file's image row to the table extends it by that one row. */
  lemma NewImagesStep(images: map<ImageId, AdImage>, ad: AdId, start: ImageId, files: seq<string>, i: nat)
    requires i < |files|
    ensures images + NewImages(ad, start, files[..i + 1])
      == (images + NewImages(ad, start, files[..i]))[start + i := AdImage(ad, files[i])]
  {
    assert files[..i + 1][..i] == files[..i];
  }

  function ImagesOf(images: map<ImageId, AdImage>, ad: AdId): (r: set<ImageId>)
    ensures forall k :: k in r <==> k in images && images[k].ad == ad
  {
    set k | k in images && images[k].ad == ad
  }

  /** The image rows without those of one ad (`on_delete=CASCADE`, or the filtered
      delete of `update`). */
  function DropImagesOf(images: map<ImageId, AdImage>, ad: AdId): (r: map<ImageId, AdImage>)
    ensures forall k :: k in r <==> k in images && images[k].ad != ad
    ensures forall k :: k in r ==> r[k] == images[k]
  {
    map k | k in images && images[k].ad != ad :: images[k]
  }

  /** The ads without those of one user. */
  function DropAdsOf(ads: map<AdId, Ad>, user: UserId): (r: map<AdId, Ad>)
    ensures forall id :: id in r <==> id in ads && ads[id].user != user
    ensures forall id :: id in r ==> r[id] == ads[id]
  {
    map id | id in ads && ads[id].user != user :: ads[id]
  }

  /** The image rows whose ad is still there. */
  function ImagesOn(images: map<ImageId, AdImage>, ads: map<AdId, Ad>): (r: map<ImageId, AdImage>)
    ensures forall k :: k in r <==> k in images && images[k].ad in ads
    ensures forall k :: k in r ==> r[k] == images[k]
  {
    map k | k in images && images[k].ad in ads :: images[k]
  }

  /** `Advertisement.objects.filter(user=user)` */
  function AdsOfUser(ads: map<AdId, Ad>, user: UserId): (r: set<AdId>)
    ensures forall id :: id in r <==> id in ads && ads[id].user == user
  {
    set id | id in ads && ads[id].user == user
  }

  /** Creating an ad adds it to its owner's ads and to nobody else's. */
  lemma AdsOfUserInsert(ads: map<AdId, Ad>, id: AdId, ad: Ad)
    requires id !in ads
    ensures AdsOfUser(ads[id := ad], ad.user) == AdsOfUser(ads, ad.user) + {id}
    ensures forall u :: u != ad.user ==> AdsOfUser(ads[id := ad], u) == AdsOfUser(ads, u)
  {
  }

  /** Changing an ad without changing its owner leaves every user's ads as they were. */
  lemma AdsOfUserSameOwner(ads: map<AdId, Ad>, id: AdId, ad: Ad)
    requires id in ads && ad.user == ads[id].user
    ensures forall u :: AdsOfUser(ads[id := ad], u) == AdsOfUser(ads, u)
  {
  }

  /** Deleting an ad removes it from its owner's ads only. */
  lemma AdsOfUserRemove(ads: map<AdId, Ad>, id: AdId)
    ensures forall u :: AdsOfUser(ads - {id}, u) == AdsOfUser(ads, u) - {id}
  {
  }

  /** After a user is deleted, nobody's ads but theirs change, and theirs are gone. */
  lemma AdsOfUserDropped(ads: map<AdId, Ad>, user: UserId)
    ensures AdsOfUser(DropAdsOf(ads, user), user) == {}
    ensures forall u :: u != user ==> AdsOfUser(DropAdsOf(ads, user), u) == AdsOfUser(ads, u)
  {
  }

  /** A view's status code and the tables after it. */
  datatype Response = Response(code: int, ads: map<AdId, Ad>, images: map<ImageId, AdImage>, nextImage: ImageId)

  /** `advertisement_update` with `AdvertisementSerializer.update` on the tables,
      under one reading of the refusing branch. */
  function UpdateView(views: Views, ads: map<AdId, Ad>, images: map<ImageId, AdImage>, nextImage: ImageId,
                      caller: UserId, isStaff: bool, id: AdId, title: Field, description: Field,
                      category: Field, url: Field, uploaded: seq<string>): Response
  {
    if id !in ads then Response(HTTP_404_NOT_FOUND, ads, images, nextImage)
    else if !MayModify(ads[id], caller, isStaff) then Response(RefusalCode(views), ads, images, nextImage)
    else
      var a := ads[id];
      var ads' := ads[id := a.(title := Keep(title, a.title), description := Keep(description, a.description),
        category := Keep(category, a.category), url := Keep(url, a.url))];
      if uploaded == [] then Response(HTTP_200_OK, ads', images, nextImage)
      else Response(HTTP_200_OK, ads', DropImagesOf(images, id) + NewImages(id, nextImage, uploaded), nextImage + |uploaded|)
  }

  /** `advertisement_delete` on the tables, under one reading of the refusing branch. */
  function DeleteView(views: Views, ads: map<AdId, Ad>, images: map<ImageId, AdImage>, nextImage: ImageId,
                      caller: UserId, isStaff: bool, id: AdId): Response
  {
    if id !in ads then Response(HTTP_404_NOT_FOUND, ads, images, nextImage)
    else if !MayModify(ads[id], caller, isStaff) then Response(RefusalCode(views), ads, images, nextImage)
    else Response(HTTP_204_NO_CONTENT, ads - {id}, DropImagesOf(images, id), nextImage)
  }

  /** The views as written and as intended leave the same tables behind; their
      answers differ exactly when an existing ad is refused to its caller, where the
      written views answer 500 instead of 403. */
  lemma RefusalViewsDiffer(ads: map<AdId, Ad>, images: map<ImageId, AdImage>, nextImage: ImageId,
                           caller: UserId, isStaff: bool, id: AdId, title: Field, description: Field,
                           category: Field, url: Field, uploaded: seq<string>)
    ensures var w := UpdateView(AsWritten, ads, images, nextImage, caller, isStaff, id, title, description, category, url, uploaded);
      var c := UpdateView(Corrected, ads, images, nextImage, caller, isStaff, id, title, description, category, url, uploaded);
      && w.ads == c.ads && w.images == c.images && w.nextImage == c.nextImage
      && (w.code != c.code <==> id in ads && !MayModify(ads[id], caller, isStaff))
      && (w.code != c.code ==> w.code == HTTP_500_INTERNAL_SERVER_ERROR && c.code == HTTP_403_FORBIDDEN)
    ensures var w := DeleteView(AsWritten, ads, images, nextImage, caller, isStaff, id);
      var c := DeleteView(Corrected, ads, images, nextImage, caller, isStaff, id);
      && w.ads == c.ads && w.images == c.images && w.nextImage == c.nextImage
      && (w.code != c.code <==> id in ads && !MayModify(ads[id], caller, isStaff))
      && (w.code != c.code ==> w.code == HTTP_500_INTERNAL_SERVER_ERROR && c.code == HTTP_403_FORBIDDEN)
  {
  }

  /** An update never moves an ad from one user to another: every user's ads stay
      as they were. */
  lemma UpdateKeepsOwners(views: Views, ads: map<AdId, Ad>, images: map<ImageId, AdImage>, nextImage: ImageId,
                          caller: UserId, isStaff: bool, id: AdId, title: Field, description: Field,
                          category: Field, url: Field, uploaded: seq<string>)
    ensures var r := UpdateView(views, ads, images, nextImage, caller, isStaff, id, title, description, category, url, uploaded);
      forall u :: AdsOfUser(r.ads, u) == AdsOfUser(ads, u)
  {
    if id in ads && MayModify(ads[id], caller, isStaff) {
      var a := ads[id];
      AdsOfUserSameOwner(ads, id, a.(title := Keep(title, a.title), description := Keep(description, a.description),
        category := Keep(category, a.category), url := Keep(url, a.url)));
    }
  }

  /** A delete that succeeds removes the ad from its owner's ads only; any other
      answer leaves every user's ads as they were. */
  lemma DeleteKeepsOwners(views: Views, ads: map<AdId, Ad>, images: map<ImageId, AdImage>, nextImage: ImageId,
                          caller: UserId, isStaff: bool, id: AdId)
    ensures var r := DeleteView(views, ads, images, nextImage, caller, isStaff, id);
      forall u :: AdsOfUser(r.ads, u) == AdsOfUser(ads, u) - (if r.code == HTTP_204_NO_CONTENT then {id} else {})
  {
    AdsOfUserRemove(ads, id);
  }

  /** The pre-save hook on an ad that already has a serial: the serial, and so the
      ad, is kept whatever the other ads' serials are. */
  method PresaveKept(ad: Ad, others: map<AdId, Ad>) returns (stored: Ad)
    requires IsSerial(ad.serial)
    ensures stored == ad
  {
    var serial := GenerateSerialNumber(ad.serial, [], UsedSerials(others));
    stored := ad.(serial := serial.value);
  }

  class AdStore {
    var ads: map<AdId, Ad>
    var images: map<ImageId, AdImage>
    var nextAd: AdId
    var nextImage: ImageId

    /** Keys below the next ids, every image on an existing ad, and every ad with a
        well-formed serial that no other ad has. */
    ghost predicate Valid()
      reads this
    {
      && (forall id :: id in ads ==> id < nextAd)
      && (forall k :: k in images ==> k < nextImage && images[k].ad in ads)
      && (forall id :: id in ads ==> IsSerial(ads[id].serial))
      && (forall a, b :: a in ads && b in ads && a != b ==> ads[a].serial != ads[b].serial)
    }

    constructor ()
      ensures Valid() && ads == map[] && images == map[] && nextAd == 0 && nextImage == 0
    {
      ads := map[];
      images := map[];
      nextAd := 0;
      nextImage := 0;
    }

    /** One `AdvertisementImage.objects.create` per file, in order. */
    method AddImages(ad: AdId, files: seq<string>)
      requires Valid() && ad in ads
      modifies this
      ensures Valid()
      ensures ads == old(ads) && nextAd == old(nextAd)
      ensures images == old(images) + NewImages(ad, old(nextImage), files)
      ensures nextImage == old(nextImage) + |files|
    {
      var i := 0;
      while i < |files|
        invariant 0 <= i <= |files|
        invariant ads == old(ads) && nextAd == old(nextAd)
        invariant forall k :: k in images ==> k < nextImage && images[k].ad in ads
        invariant nextImage == old(nextImage) + i
        invariant images == old(images) + NewImages(ad, old(nextImage), files[..i])
      {
        NewImagesStep(old(images), ad, old(nextImage), files, i);
        images := images[nextImage := AdImage(ad, files[i])];
        nextImage := nextImage + 1;
        i := i + 1;
      }
      assert files[..i] == files;
    }

    /** `save()` of an existing ad with its owner and serial unchanged: the pre-save
        hook keeps the serial, and the row is replaced. */
    method SaveAd(id: AdId, edited: Ad)
      requires Valid() && id in ads && edited.user == ads[id].user && edited.serial == ads[id].serial
      modifies this
      ensures Valid()
      ensures ads == old(ads)[id := edited] && images == old(images)
      ensures nextAd == old(nextAd) && nextImage == old(nextImage)
      ensures forall u :: AdsOfUser(ads, u) == AdsOfUser(old(ads), u)
    {
      var stored := PresaveKept(edited, ads - {id});
      SameSerialKeepsUnique(ads, id, stored);
      AdsOfUserSameOwner(ads, id, stored);
      ads := ads[id := stored];
    }

    /** The ad's image rows are deleted, then one is created per file. */
    method ReplaceImages(ad: AdId, files: seq<string>)
      requires Valid() && ad in ads
      modifies this
      ensures Valid()
      ensures ads == old(ads) && nextAd == old(nextAd)
      ensures images == DropImagesOf(old(images), ad) + NewImages(ad, old(nextImage), files)
      ensures nextImage == old(nextImage) + |files|
    {
      images := DropImagesOf(images, ad);
      AddImages(ad, files);
    }

    /** The ad row is saved under the next id. */
    method InsertAd(ad: Ad) returns (id: AdId)
      requires Valid() && IsSerial(ad.serial) && ad.serial !in UsedSerials(ads)
      modifies this
      ensures Valid()
      ensures id == old(nextAd) && ads == old(ads)[id := ad] && nextAd == old(nextAd) + 1
      ensures images == old(images) && nextImage == old(nextImage)
      ensures AdsOfUser(ads, ad.user) == AdsOfUser(old(ads), ad.user) + {id}
      ensures forall u :: u != ad.user ==> AdsOfUser(ads, u) == AdsOfUser(old(ads), u)
    {
      id := nextAd;
      AdsOfUserInsert(ads, id, ad);
      ads := ads[id := ad];
      nextAd := nextAd + 1;
    }

    /** `AdvertisementSerializer.create`: an unauthenticated request stores nothing;
        otherwise the ad is stored with the pre-save hook's serial and the request's
        fields (views 0 and status 'pending' unless the request gives them), then one
        image row per uploaded file. */
    method Create(user: Option<UserId>, title: Option<string>, description: Option<string>,
                  category: Option<string>, url: Option<string>, views: Option<nat>,
                  status: Option<Status>, uploaded: seq<string>, draws: seq<Draw>, now: int)
      returns (r: Result<AdId, AdError>)
      requires Valid()
      modifies this
      ensures Valid()
      ensures user.None? ==> r == Err(AuthenticationRequired) && ads == old(ads) && images == old(images)
      ensures user.Some? && FirstFresh(draws, UsedSerials(old(ads))).None? ==>
        r == Err(SerialsExhausted) && ads == old(ads) && images == old(images)
      ensures user.Some? && FirstFresh(draws, UsedSerials(old(ads))).Some? ==>
        && r == Ok(old(nextAd))
        && ads == old(ads)[old(nextAd) := Ad(user.value, title, description, category, views.GetOr(0), url,
             now, status.GetOr(Pending), FirstFresh(draws, UsedSerials(old(ads))).value)]
        && images == old(images) + NewImages(old(nextAd), old(nextImage), uploaded)
      ensures r.Ok? ==> nextAd == old(nextAd) + 1 && nextImage == old(nextImage) + |uploaded|
      ensures r.Err? ==> nextAd == old(nextAd) && nextImage == old(nextImage)
      ensures r.Ok? ==>
        && AdsOfUser(ads, user.value) == AdsOfUser(old(ads), user.value) + {r.value}
        && forall u :: u != user.value ==> AdsOfUser(ads, u) == AdsOfUser(old(ads), u)
    {
      if user.None? {
        return Err(AuthenticationRequired);
      }
      var serial := GenerateSerialNumber("", draws, UsedSerials(ads));
      if serial.None? {
        return Err(SerialsExhausted);
      }
      var ad := Ad(user.value, title, description, category, views.GetOr(0), url,
        now, status.GetOr(Pending), serial.value);
      var id := InsertAd(ad);
      AddImages(id, uploaded);
      r := Ok(id);
    }

    /** `advertisement_update` with `AdvertisementSerializer.update`: 404 for an
        unknown ad, a refusal unless the caller owns it or is staff; otherwise each of
        title, description, category and url takes the request's value when given,
        and a non-empty upload replaces all of the ad's images. */
    method Update(views: Views, caller: UserId, isStaff: bool, id: AdId, title: Field, description: Field,
                  category: Field, url: Field, uploaded: seq<string>)
      returns (code: int)
      requires Valid()
      modifies this
      ensures Valid()
      ensures nextAd == old(nextAd)
      ensures id !in old(ads) ==> code == HTTP_404_NOT_FOUND && ads == old(ads) && images == old(images)
      ensures id in old(ads) && !MayModify(old(ads)[id], caller, isStaff) ==>
        code == RefusalCode(views) && ads == old(ads) && images == old(images)
      ensures id in old(ads) && MayModify(old(ads)[id], caller, isStaff) ==>
        var a := old(ads)[id];
        && code == HTTP_200_OK
        && ads == old(ads)[id := a.(title := Keep(title, a.title), description := Keep(description, a.description),
             category := Keep(category, a.category), url := Keep(url, a.url))]
        && (uploaded == [] ==> images == old(images))
        && (uploaded != [] ==> images == DropImagesOf(old(images), id) + NewImages(id, old(nextImage), uploaded))
      ensures nextImage == old(nextImage) + (if code == HTTP_200_OK then |uploaded| else 0)
      ensures Response(code, ads, images, nextImage) ==
        UpdateView(views, old(ads), old(images), old(nextImage), caller, isStaff, id, title, description, category, url, uploaded)
      ensures forall u :: AdsOfUser(ads, u) == AdsOfUser(old(ads), u)
    {
      if id !in ads {
        return HTTP_404_NOT_FOUND;
      }
      var a := ads[id];
      if !MayModify(a, caller, isStaff) {
        return RefusalCode(views);
      }
      SaveAd(id, a.(title := Keep(title, a.title), description := Keep(description, a.description),
        category := Keep(category, a.category), url := Keep(url, a.url)));
      if uploaded != [] {
        ReplaceImages(id, uploaded);
      }
      code := HTTP_200_OK;
    }

    /** `advertisement_delete`: 404 for an unknown ad, a refusal unless the caller
        owns it or is staff; otherwise the ad and its images are removed. */
    method Delete(views: Views, caller: UserId, isStaff: bool, id: AdId) returns (code: int)
      requires Valid()
      modifies this
      ensures Valid()
      ensures id !in old(ads) ==> code == HTTP_404_NOT_FOUND && ads == old(ads) && images == old(images)
      ensures id in old(ads) && !MayModify(old(ads)[id], caller, isStaff) ==>
        code == RefusalCode(views) && ads == old(ads) && images == old(images)
      ensures id in old(ads) && MayModify(old(ads)[id], caller, isStaff) ==>
        code == HTTP_204_NO_CONTENT && ads == old(ads) - {id} && images == DropImagesOf(old(images), id)
      ensures nextAd == old(nextAd) && nextImage == old(nextImage)
      ensures Response(code, ads, images, nextImage) == DeleteView(views, old(ads), old(images), old(nextImage), caller, isStaff, id)
      ensures forall u :: AdsOfUser(ads, u) == AdsOfUser(old(ads), u) - (if code == HTTP_204_NO_CONTENT then {id} else {})
    {
      if id !in ads {
        return HTTP_404_NOT_FOUND;
      }
      if !MayModify(ads[id], caller, isStaff) {
        return RefusalCode(views);
      }
      AdsOfUserRemove(ads, id);
      ads := ads - {id};
      images := DropImagesOf(images, id);
      code := HTTP_204_NO_CONTENT;
    }

    /** `advertisement_approve`, for staff only: 404 for an unknown ad; otherwise its
        status becomes 'approved', whatever it was. */
    method Approve(isStaff: bool, id: AdId) returns (code: int)
      requires Valid()
      modifies this
      ensures Valid()
      ensures images == old(images)
      ensures !isStaff ==> code == HTTP_403_FORBIDDEN && ads == old(ads)
      ensures isStaff && id !in old(ads) ==> code == HTTP_404_NOT_FOUND && ads == old(ads)
      ensures isStaff && id in old(ads) ==>
        code == HTTP_200_OK && ads == old(ads)[id := old(ads)[id].(status := Approved)]
      ensures nextAd == old(nextAd) && nextImage == old(nextImage)
      ensures forall u :: AdsOfUser(ads, u) == AdsOfUser(old(ads), u)
    {
      if !isStaff {
        return HTTP_403_FORBIDDEN;
      }
      if id !in ads {
        return HTTP_404_NOT_FOUND;
      }
      SaveAd(id, ads[id].(status := Approved));
      code := HTTP_200_OK;
    }

    /** Deleting a user deletes their ads (`on_delete=CASCADE`), and with them the
        ads' images. */
    method DeleteUser(user: UserId)
      requires Valid()
      modifies this
      ensures Valid()
      ensures ads == DropAdsOf(old(ads), user)
      ensures images == ImagesOn(old(images), ads)
      ensures nextAd == old(nextAd) && nextImage == old(nextImage)
      ensures AdsOfUser(ads, user) == {}
      ensures forall u :: u != user ==> AdsOfUser(ads, u) == AdsOfUser(old(ads), u)
    {
      AdsOfUserDropped(ads, user);
      ads := DropAdsOf(ads, user);
      images := ImagesOn(images, ads);
    }
  }

  // ---------------------------------------------------------------------------

  /** A serial the hook assigns is well formed and unused, so storing it keeps the
      serials unique. */
  lemma FreshSerialKeepsUnique(ads: map<AdId, Ad>, id: AdId, ad: Ad, draws: seq<Draw>)
    requires forall a, b :: a in ads && b in ads && a != b ==> ads[a].serial != ads[b].serial
    requires id !in ads && FirstFresh(draws, UsedSerials(ads)).Some?
    requires ad.serial == FirstFresh(draws, UsedSerials(ads)).value
    ensures IsSerial(ad.serial)
    ensures var ads' := ads[id := ad];
      forall a, b :: a in ads' && b in ads' && a != b ==> ads'[a].serial != ads'[b].serial
  {
    var ads' := ads[id := ad];
    forall a, b | a in ads' && b in ads' && a != b ensures ads'[a].serial != ads'[b].serial {
      if a == id {
        assert ads'[b].serial in UsedSerials(ads);
      } else if b == id {
        assert ads'[a].serial in UsedSerials(ads);
      }
    }
  }

  /** Replacing an ad by one with the same serial keeps the serials well formed and
      distinct. */
  lemma SameSerialKeepsUnique(ads: map<AdId, Ad>, id: AdId, ad: Ad)
    requires forall a, b :: a in ads && b in ads && a != b ==> ads[a].serial != ads[b].serial
    requires forall a :: a in ads ==> IsSerial(ads[a].serial)
    requires id in ads && ad.serial == ads[id].serial
    ensures var ads' := ads[id := ad];
      && (forall a :: a in ads' ==> IsSerial(ads'[a].serial))
      && (forall a, b :: a in ads' && b in ads' && a != b ==> ads'[a].serial != ads'[b].serial)
  {
  }

  /** When the update carries no image, the ad's images stay; when it carries
      some, the ad's images afterwards are exactly the uploads, and other ads'
      images are untouched. */
  lemma ReplacedImages(images: map<ImageId, AdImage>, id: AdId, start: ImageId, uploaded: seq<string>)
    requires forall k :: k in images ==> k < start
    requires uploaded != []
    ensures var after := DropImagesOf(images, id) + NewImages(id, start, uploaded);
      && (forall k :: k in ImagesOf(after, id) <==> start <= k < start + |uploaded|)
      && (forall k :: k in images && images[k].ad != id ==> k in after && after[k] == images[k])
      && (forall k :: start <= k < start + |uploaded| ==> after[k].file == uploaded[k - start])
  {
  }
}
