/** Controllers/PhotosController.cs: the gallery actions. The route's `userId` is
    checked against the caller's id from the token, the gallery is the user's
    `Photos` collection, and a save reports success exactly when the action
    changed something. The media host's upload result (url and public id) and its
    destroy result arrive as arguments. */
module PhotosController {
  import opened Queries
  import opened Repository
  import opened Http

  /** The database's identity column gives a new photo a key above every key in
      use; which one it picks is the database's choice. */
  predicate FreshPhotoId(photos: seq<Photo>, id: int)
  {
    forall k :: 0 <= k < |photos| ==> photos[k].id < id
  }

  /** Sets `IsMain` on the photo whose key is `id`, leaving every other photo as it was. */
  function WithMainFlag(photos: seq<Photo>, id: int, flag: bool): (r: seq<Photo>)
    ensures |r| == |photos|
    ensures forall k :: 0 <= k < |r| ==>
      r[k] == if photos[k].id == id then photos[k].(isMain := flag) else photos[k]
  {
    seq(|photos|, k requires 0 <= k < |photos| =>
      if photos[k].id == id then photos[k].(isMain := flag) else photos[k])
  }

  /** The flag swap of SetMainPhoto: the current main photo loses the flag, the chosen one gains it. */
  function SwapMain(photos: seq<Photo>, currentMainId: int, id: int): (r: seq<Photo>)
    ensures |r| == |photos|
    ensures forall k :: 0 <= k < |r| ==>
      r[k] == if photos[k].id == id then photos[k].(isMain := true)
              else if photos[k].id == currentMainId then photos[k].(isMain := false)
              else photos[k]
  {
    WithMainFlag(WithMainFlag(photos, currentMainId, false), id, true)
  }

  /** `_repo.Delete(photo)`: the photos table without the row whose key is `id`. */
  function WithoutPhoto(photos: seq<Photo>, id: int): (r: seq<Photo>)
    ensures multiset(r) <= multiset(photos)
    ensures forall k :: 0 <= k < |r| ==> r[k] in photos && r[k].id != id
    ensures forall k :: 0 <= k < |photos| && photos[k].id != id ==> photos[k] in r
  {
    Where(photos, (p: Photo) => p.id != id)
  }

  /** Appending a photo under a fresh key, main exactly when its owner had no main
      photo, keeps the table's invariants and leaves the owner with a main photo. */
  lemma AddKeepsInvariants(photos: seq<Photo>, added: Photo)
    requires PhotoIdsDistinct(photos) && AtMostOneMainPerUser(photos)
    requires FreshPhotoId(photos, added.id)
    requires added.isMain == !HasMainPhoto(photos, added.userId)
    ensures PhotoIdsDistinct(photos + [added]) && AtMostOneMainPerUser(photos + [added])
    ensures MainExists(photos + [added], added.userId)
  {
    var r := photos + [added];
    assert Pairwise(r, PhotoIdsDiffer) && Pairwise(r, NotBothMainOfOneUser) by {
      forall i, j | 0 <= i < j < |r| ensures PhotoIdsDiffer(r[i], r[j]) && NotBothMainOfOneUser(r[i], r[j]) {
        if j < |photos| {
          assert r[i] == photos[i] && r[j] == photos[j];
          assert PhotoIdsDiffer(photos[i], photos[j]) && NotBothMainOfOneUser(photos[i], photos[j]);
        } else {
          assert r[i] == photos[i] && r[j] == added;
        }
      }
    }
    if added.isMain {
      assert r[|photos|] == added;
    } else {
      var m :| 0 <= m < |photos| && photos[m].userId == added.userId && photos[m].isMain;
      assert r[m] == photos[m];
    }
  }

  /** Appending a photo never takes a main photo away from a gallery. */
  lemma AddKeepsGalleries(photos: seq<Photo>, added: Photo)
    requires EveryGalleryHasMain(photos)
    requires MainExists(photos + [added], added.userId)
    ensures EveryGalleryHasMain(photos + [added])
  {
    var r := photos + [added];
    forall k | 0 <= k < |r| ensures MainExists(r, r[k].userId) {
      if k < |photos| {
        assert MainExists(photos, photos[k].userId);
        var m :| 0 <= m < |photos| && photos[m].userId == photos[k].userId && photos[m].isMain;
        assert r[m] == photos[m] && r[k] == photos[k];
      }
    }
  }

  /** `after` is `before` with the main flag of member `userId` on photo `id` alone:
      every photo of theirs is main exactly when it is photo `id`, and every other
      member's photo is as it was. */
  ghost predicate MainMovedTo(before: seq<Photo>, after: seq<Photo>, userId: int, id: int)
  {
    |after| == |before| &&
    (forall k :: 0 <= k < |before| && before[k].userId == userId ==>
      after[k] == before[k].(isMain := before[k].id == id)) &&
    (forall k :: 0 <= k < |before| && before[k].userId != userId ==> after[k] == before[k])
  }

  /** Removing a photo that is not main removes that row alone and keeps the
      table's invariants and every main photo. */
  lemma RemoveKeepsInvariants(photos: seq<Photo>, k: int)
    requires PhotoIdsDistinct(photos) && AtMostOneMainPerUser(photos)
    requires 0 <= k < |photos| && !photos[k].isMain
    ensures var r := WithoutPhoto(photos, photos[k].id);
      r == photos[..k] + photos[k + 1..] &&
      PhotoIdsDistinct(r) && AtMostOneMainPerUser(r) &&
      (forall j :: 0 <= j < |photos| && photos[j].isMain ==> photos[j] in r)
  {
    var id := photos[k].id;
    var keep := (p: Photo) => p.id != id;
    WherePreservesPairwise(photos, keep, PhotoIdsDiffer);
    WherePreservesPairwise(photos, keep, NotBothMainOfOneUser);
    forall i | 0 <= i < |photos| ensures keep(photos[i]) <==> i != k {
      if i < k {
        assert PhotoIdsDiffer(photos[i], photos[k]);
      } else if k < i {
        assert PhotoIdsDiffer(photos[k], photos[i]);
      }
    }
    WhereDropsExactlyOne(photos, keep, k);
  }

  /** A table that keeps every main photo and holds only photos of the old one
      leaves no gallery without its main photo. */
  lemma KeepingMainsKeepsGalleries(photos: seq<Photo>, r: seq<Photo>)
    requires EveryGalleryHasMain(photos)
    requires forall j :: 0 <= j < |r| ==> r[j] in photos
    requires forall j :: 0 <= j < |photos| && photos[j].isMain ==> photos[j] in r
    ensures EveryGalleryHasMain(r)
  {
    forall j | 0 <= j < |r| ensures MainExists(r, r[j].userId) {
      var i :| 0 <= i < |photos| && photos[i] == r[j];
      assert MainExists(photos, photos[i].userId);
      var m :| 0 <= m < |photos| && photos[m].userId == photos[i].userId && photos[m].isMain;
      var n :| 0 <= n < |r| && r[n] == photos[m];
    }
  }

  /** Swapping the main flag from a user's current main photo to another photo of
      theirs leaves that user with exactly the chosen photo as main, changes no other
      photo, and keeps the table's invariants. */
  lemma SwapMainKeepsInvariants(photos: seq<Photo>, userId: int, c: int, t: int)
    requires PhotoIdsDistinct(photos) && AtMostOneMainPerUser(photos)
    requires 0 <= c < |photos| && photos[c].userId == userId && photos[c].isMain
    requires 0 <= t < |photos| && photos[t].userId == userId && !photos[t].isMain
    ensures var r := SwapMain(photos, photos[c].id, photos[t].id);
      MainMovedTo(photos, r, userId, photos[t].id) &&
      PhotoIdsDistinct(r) && AtMostOneMainPerUser(r)
  {
    var r := SwapMain(photos, photos[c].id, photos[t].id);
    forall k | 0 <= k < |photos|
      ensures photos[k].id == photos[c].id <==> k == c
      ensures photos[k].id == photos[t].id <==> k == t
      ensures photos[k].userId == userId && photos[k].isMain ==> k == c
    {
      if k < c {
        assert PhotoIdsDiffer(photos[k], photos[c]) && NotBothMainOfOneUser(photos[k], photos[c]);
      } else if c < k {
        assert PhotoIdsDiffer(photos[c], photos[k]) && NotBothMainOfOneUser(photos[c], photos[k]);
      }
      if k < t {
        assert PhotoIdsDiffer(photos[k], photos[t]);
      } else if t < k {
        assert PhotoIdsDiffer(photos[t], photos[k]);
      }
    }
    assert c != t;
    assert forall k :: 0 <= k < |r| ==>
      r[k] == if photos[k].userId == userId then photos[k].(isMain := k == t) else photos[k];
    MovedKeepsInvariants(photos, r, userId, photos[t].id);
  }

  /** Moving a member's main flag onto one photo of theirs keeps the keys and
      leaves no member with two main photos. */
  lemma MovedKeepsInvariants(before: seq<Photo>, after: seq<Photo>, userId: int, id: int)
    requires PhotoIdsDistinct(before) && AtMostOneMainPerUser(before)
    requires MainMovedTo(before, after, userId, id)
    ensures PhotoIdsDistinct(after) && AtMostOneMainPerUser(after)
  {
    forall i, j | 0 <= i < j < |after| ensures PhotoIdsDiffer(after[i], after[j]) && NotBothMainOfOneUser(after[i], after[j]) {
      assert PhotoIdsDiffer(before[i], before[j]) && NotBothMainOfOneUser(before[i], before[j]);
    }
  }

  /** Moving a member's main flag onto a photo of theirs leaves every gallery with
      a main photo. */
  lemma MovedKeepsGalleries(before: seq<Photo>, after: seq<Photo>, userId: int, id: int, t: int)
    requires EveryGalleryHasMain(before)
    requires MainMovedTo(before, after, userId, id)
    requires 0 <= t < |before| && before[t].userId == userId && before[t].id == id
    ensures EveryGalleryHasMain(after)
  {
    forall k | 0 <= k < |after| ensures MainExists(after, after[k].userId) {
      if before[k].userId == userId {
        assert after[t].isMain && after[t].userId == userId;
      } else {
        assert MainExists(before, before[k].userId);
        var m :| 0 <= m < |before| && before[m].userId == before[k].userId && before[m].isMain;
        assert after[m] == before[m];
      }
    }
  }

  /** The swap SetMainPhoto performs once its guards have passed: photo `id` of
      the user is not main and the user has a current main photo. */
  lemma SetMainSwapFacts(photos: seq<Photo>, userId: int, id: int)
    requires PhotoIdsDistinct(photos) && AtMostOneMainPerUser(photos)
    requires OwnsPhoto(photos, userId, id) && !GetPhoto(photos, id).value.isMain
    requires HasMainPhoto(photos, userId)
    ensures var r := SwapMain(photos, GetMainPhotoForUser(photos, userId).value.id, id);
      MainMovedTo(photos, r, userId, id) &&
      PhotoIdsDistinct(r) && AtMostOneMainPerUser(r) &&
      (EveryGalleryHasMain(photos) ==> EveryGalleryHasMain(r))
  {
    var t :| 0 <= t < |photos| && photos[t].userId == userId && photos[t].id == id;
    GetPhotoFindsStored(photos, t);
    var current := GetMainPhotoForUser(photos, userId);
    var c :| 0 <= c < |photos| && photos[c] == current.value;
    SwapMainKeepsInvariants(photos, userId, c, t);
    if EveryGalleryHasMain(photos) {
      MovedKeepsGalleries(photos, SwapMain(photos, current.value.id, id), userId, id, t);
    }
  }

  /** The removal DeletePhoto performs once its guards have passed: photo `id` of
      the user is not main. */
  lemma DeleteFacts(photos: seq<Photo>, userId: int, id: int)
    requires PhotoIdsDistinct(photos) && AtMostOneMainPerUser(photos)
    requires OwnsPhoto(photos, userId, id) && !GetPhoto(photos, id).value.isMain
    ensures var r := WithoutPhoto(photos, id);
      |r| == |photos| - 1 &&
      PhotoIdsDistinct(r) && AtMostOneMainPerUser(r) &&
      (forall j :: 0 <= j < |photos| && photos[j].isMain ==> photos[j] in r) &&
      (EveryGalleryHasMain(photos) ==> EveryGalleryHasMain(r))
  {
    var t :| 0 <= t < |photos| && photos[t].userId == userId && photos[t].id == id;
    GetPhotoFindsStored(photos, t);
    RemoveKeepsInvariants(photos, t);
    if EveryGalleryHasMain(photos) {
      KeepingMainsKeepsGalleries(photos, WithoutPhoto(photos, id));
    }
  }

  /** `AddPhotoForUser`, once the media host has accepted a non-empty file and
      returned its `url` and `publicId`; `newId` is the key the database assigns
      when the new row is saved. */
  method AddPhotoForUser(db: DataContext, callerId: int, userId: int, url: string, publicId: Option<string>,
                         newId: int)
    returns (result: ActionResult)
    requires db.Valid()
    requires FreshPhotoId(db.photos, newId)
    modifies db`photos
    ensures db.Valid()
    ensures userId != callerId ==> result == Unauthorized
    ensures userId == callerId && GetUser(db.users, userId).None? ==> result == ServerError
    ensures result.CreatedAtRoute? <==> userId == callerId && GetUser(db.users, userId).Some?
    ensures result.CreatedAtRoute? ==>
      result.photo == Photo(newId, userId, url, !HasMainPhoto(old(db.photos), userId), publicId) &&
      db.photos == old(db.photos) + [result.photo] &&
      MainExists(db.photos, userId)
    ensures !result.CreatedAtRoute? ==> db.photos == old(db.photos)
    ensures EveryGalleryHasMain(old(db.photos)) ==> EveryGalleryHasMain(db.photos)
  {
    if userId != callerId {
      return Unauthorized;
    }
    var user := GetUser(db.users, userId);
    if user.None? {
      // `userFromRepo.Photos` dereferences null
      return ServerError;
    }
    var photo := Photo(newId, userId, url, false, publicId);
    if !HasMainPhoto(db.photos, userId) {
      photo := photo.(isMain := true);
    }
    AddKeepsInvariants(db.photos, photo);
    if EveryGalleryHasMain(db.photos) {
      AddKeepsGalleries(db.photos, photo);
    }
    db.photos := db.photos + [photo];
    return CreatedAtRoute(photo);
  }

  /** `SetMainPhoto` on the entities it loads: its response, and the photos table
      after its flag writes. The guards run in the source's order; a missing user
      or a missing current main photo is a null dereference, so a server error. */
  method SetMainPhotoEdits(users: seq<User>, photos: seq<Photo>, callerId: int, userId: int, id: int)
    returns (result: ActionResult, edited: seq<Photo>)
    requires PhotoIdsDistinct(photos) && AtMostOneMainPerUser(photos)
    ensures PhotoIdsDistinct(edited) && AtMostOneMainPerUser(edited)
    ensures userId != callerId ==> result == Unauthorized
    ensures userId == callerId && GetUser(users, userId).None? ==> result == ServerError
    ensures userId == callerId && GetUser(users, userId).Some? && !OwnsPhoto(photos, userId, id) ==>
      result == Unauthorized
    ensures userId == callerId && GetUser(users, userId).Some? && OwnsPhoto(photos, userId, id) ==>
      result == (if GetPhoto(photos, id).value.isMain then BadRequest("this is already the main photo")
                 else if !HasMainPhoto(photos, userId) then ServerError
                 else NoContent)
    ensures result != NoContent ==> edited == photos
    ensures result == NoContent ==> MainMovedTo(photos, edited, userId, id)
    ensures EveryGalleryHasMain(photos) ==> EveryGalleryHasMain(edited)
  {
    edited := photos;
    if userId != callerId {
      return Unauthorized, edited;
    }
    var user := GetUser(users, userId);
    if user.None? {
      // `user.Photos` dereferences null
      return ServerError, edited;
    }
    if !OwnsPhoto(photos, userId, id) {
      return Unauthorized, edited;
    }
    var photo := GetPhoto(photos, id);
    if photo.value.isMain {
      return BadRequest("this is already the main photo"), edited;
    }
    var current := GetMainPhotoForUser(photos, userId);
    if current.None? {
      // `currentMainPhoto.IsMain` dereferences null
      return ServerError, edited;
    }
    SetMainSwapFacts(photos, userId, id);
    edited := SwapMain(photos, current.value.id, id);
    return NoContent, edited;
  }

  /** `SetMainPhoto`: moves the main flag to photo `id` of the caller's gallery;
      `SaveAll` writes the edited photos back to the context. */
  method SetMainPhoto(db: DataContext, callerId: int, userId: int, id: int) returns (result: ActionResult)
    requires db.Valid()
    modifies db`photos
    ensures db.Valid()
    ensures userId != callerId ==> result == Unauthorized
    ensures userId == callerId && GetUser(db.users, userId).None? ==> result == ServerError
    ensures userId == callerId && GetUser(db.users, userId).Some? && !OwnsPhoto(old(db.photos), userId, id) ==>
      result == Unauthorized
    ensures userId == callerId && GetUser(db.users, userId).Some? && OwnsPhoto(old(db.photos), userId, id) ==>
      result == (if GetPhoto(old(db.photos), id).value.isMain then BadRequest("this is already the main photo")
                 else if !HasMainPhoto(old(db.photos), userId) then ServerError
                 else NoContent)
    ensures result != NoContent ==> db.photos == old(db.photos)
    ensures result == NoContent ==> MainMovedTo(old(db.photos), db.photos, userId, id)
    ensures EveryGalleryHasMain(old(db.photos)) ==> EveryGalleryHasMain(db.photos)
  {
    var edited;
    result, edited := SetMainPhotoEdits(db.users, db.photos, callerId, userId, id);
    db.photos := edited;
  }

  /** `DeletePhoto` on the entities it loads: its response, and the photos table
      after the repository's `Delete`. A photo the media host holds is deleted
      only when the host confirms its destruction (`destroyed`); otherwise nothing
      changes and the save reports failure. */
  method DeletePhotoEdits(users: seq<User>, photos: seq<Photo>, callerId: int, userId: int, id: int, destroyed: bool)
    returns (result: ActionResult, edited: seq<Photo>)
    requires PhotoIdsDistinct(photos) && AtMostOneMainPerUser(photos)
    ensures PhotoIdsDistinct(edited) && AtMostOneMainPerUser(edited)
    ensures userId != callerId ==> result == Unauthorized
    ensures userId == callerId && GetUser(users, userId).None? ==> result == ServerError
    ensures userId == callerId && GetUser(users, userId).Some? && !OwnsPhoto(photos, userId, id) ==>
      result == Unauthorized
    ensures userId == callerId && GetUser(users, userId).Some? && OwnsPhoto(photos, userId, id) ==>
      var photo := GetPhoto(photos, id).value;
      result == (if photo.isMain then BadRequest("You cannot delete your main photo")
                 else if photo.publicId.Some? && !destroyed then BadRequest("Failed to delete the photo")
                 else Ok)
    ensures result != Ok ==> edited == photos
    ensures result == Ok ==> edited == WithoutPhoto(photos, id) && |edited| == |photos| - 1
    ensures forall k :: 0 <= k < |photos| && photos[k].isMain ==> photos[k] in edited
    ensures EveryGalleryHasMain(photos) ==> EveryGalleryHasMain(edited)
  {
    edited := photos;
    if userId != callerId {
      return Unauthorized, edited;
    }
    var user := GetUser(users, userId);
    if user.None? {
      // `user.Photos` dereferences null
      return ServerError, edited;
    }
    if !OwnsPhoto(photos, userId, id) {
      return Unauthorized, edited;
    }
    var photo := GetPhoto(photos, id);
    if photo.value.isMain {
      return BadRequest("You cannot delete your main photo"), edited;
    }
    DeleteFacts(photos, userId, id);
    if photo.value.publicId.Some? {
      if destroyed {
        edited := WithoutPhoto(photos, id);
      }
    }
    if photo.value.publicId.None? {
      edited := WithoutPhoto(photos, id);
    }
    // `SaveAll` succeeds exactly when a row was deleted
    if edited != photos {
      return Ok, edited;
    }
    return BadRequest("Failed to delete the photo"), edited;
  }

  /** `DeletePhoto`: removes photo `id` of the caller's gallery unless it is the
      main photo; `SaveAll` writes the deletion to the context. */
  method DeletePhoto(db: DataContext, callerId: int, userId: int, id: int, destroyed: bool)
    returns (result: ActionResult)
    requires db.Valid()
    modifies db`photos
    ensures db.Valid()
    ensures userId != callerId ==> result == Unauthorized
    ensures userId == callerId && GetUser(db.users, userId).None? ==> result == ServerError
    ensures userId == callerId && GetUser(db.users, userId).Some? && !OwnsPhoto(old(db.photos), userId, id) ==>
      result == Unauthorized
    ensures userId == callerId && GetUser(db.users, userId).Some? && OwnsPhoto(old(db.photos), userId, id) ==>
      var photo := GetPhoto(old(db.photos), id).value;
      result == (if photo.isMain then BadRequest("You cannot delete your main photo")
                 else if photo.publicId.Some? && !destroyed then BadRequest("Failed to delete the photo")
                 else Ok)
    ensures result != Ok ==> db.photos == old(db.photos)
    ensures result == Ok ==>
      db.photos == WithoutPhoto(old(db.photos), id) && |db.photos| == |old(db.photos)| - 1
    ensures forall k :: 0 <= k < |old(db.photos)| && old(db.photos)[k].isMain ==> old(db.photos)[k] in db.photos
    ensures EveryGalleryHasMain(old(db.photos)) ==> EveryGalleryHasMain(db.photos)
  {
    var edited;
    result, edited := DeletePhotoEdits(db.users, db.photos, callerId, userId, id, destroyed);
    db.photos := edited;
  }
}
