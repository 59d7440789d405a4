/** Data/DatingRepository.cs and the entities it serves: the users, photos and
    likes tables of Data/DataContext.cs, and the read-only queries over them. */
module Repository {
  import opened Queries
  import opened Dates
  import opened Params

  /** A member. `gender` may be null; `profile` holds the free-text fields that
      UpdateUser maps onto the entity, by property name. */
  datatype User = User(id: int, gender: Option<string>, dateOfBirth: Date, profile: map<string, string>)

  /** A gallery photo. `publicId` is the media host's identifier; null for a photo
      the host does not hold. */
  datatype Photo = Photo(id: int, userId: int, url: string, isMain: bool, publicId: Option<string>)

  /** A directed like; (likerId, likeeId) is the composite primary key. */
  datatype Like = Like(likerId: int, likeeId: int)

  function UserIdsDiffer(a: User, b: User): bool
  {
    a.id != b.id
  }

  function PhotoIdsDiffer(p: Photo, q: Photo): bool
  {
    p.id != q.id
  }

  function NotBothMainOfOneUser(p: Photo, q: Photo): bool
  {
    !(p.userId == q.userId && p.isMain && q.isMain)
  }

  /** Primary keys of the users table. */
  predicate UserIdsDistinct(users: seq<User>)
  {
    Pairwise(users, UserIdsDiffer)
  }

  /** Primary keys of the photos table. */
  predicate PhotoIdsDistinct(photos: seq<Photo>)
  {
    Pairwise(photos, PhotoIdsDiffer)
  }

  /** No member has two main photos. */
  predicate AtMostOneMainPerUser(photos: seq<Photo>)
  {
    Pairwise(photos, NotBothMainOfOneUser)
  }

  /** Some photo of member `userId` is main. */
  ghost predicate MainExists(photos: seq<Photo>, userId: int)
  {
    exists m :: 0 <= m < |photos| && photos[m].userId == userId && photos[m].isMain
  }

  /** Every member who has photos has a main photo among them. */
  ghost predicate EveryGalleryHasMain(photos: seq<Photo>)
  {
    forall k :: 0 <= k < |photos| ==> MainExists(photos, photos[k].userId)
  }

  /** The database: the three tables, in storage order. */
  class DataContext {
    var users: seq<User>
    var photos: seq<Photo>
    /** Likes form a set because of their composite key. */
    var likes: set<Like>

    ghost predicate Valid()
      reads this
    {
      UserIdsDistinct(users) && PhotoIdsDistinct(photos) && AtMostOneMainPerUser(photos)
    }

    constructor (users: seq<User>, photos: seq<Photo>, likes: set<Like>)
      requires UserIdsDistinct(users) && PhotoIdsDistinct(photos) && AtMostOneMainPerUser(photos)
      ensures Valid()
      ensures this.users == users && this.photos == photos && this.likes == likes
    {
      this.users := users;
      this.photos := photos;
      this.likes := likes;
    }
  }

  /** `GetUser`: the user with that id, or null. */
  function GetUser(users: seq<User>, id: int): (r: Option<User>)
    ensures r.Some? ==> r.value in users && r.value.id == id
    ensures r.None? <==> forall k :: 0 <= k < |users| ==> users[k].id != id
  {
    FirstOrDefault(users, (u: User) => u.id == id)
  }

  /** With distinct keys, GetUser finds exactly the stored member. */
  lemma GetUserFindsStored(users: seq<User>, k: int)
    requires UserIdsDistinct(users)
    requires 0 <= k < |users|
    ensures GetUser(users, users[k].id) == Some(users[k])
  {
    var r := GetUser(users, users[k].id);
    var i :| 0 <= i < |users| && users[i] == r.value;
  }

  /** `GetPhoto`: the photo with that id, or null. */
  function GetPhoto(photos: seq<Photo>, id: int): (r: Option<Photo>)
    ensures r.Some? ==> r.value in photos && r.value.id == id
    ensures r.None? <==> forall k :: 0 <= k < |photos| ==> photos[k].id != id
  {
    FirstOrDefault(photos, (p: Photo) => p.id == id)
  }

  /** With distinct keys, GetPhoto finds exactly the stored photo. */
  lemma GetPhotoFindsStored(photos: seq<Photo>, k: int)
    requires PhotoIdsDistinct(photos)
    requires 0 <= k < |photos|
    ensures GetPhoto(photos, photos[k].id) == Some(photos[k])
  {
    var r := GetPhoto(photos, photos[k].id);
    var i :| 0 <= i < |photos| && photos[i] == r.value;
  }

  /** A user's `Photos` navigation collection, as `Include(p => p.Photos)` loads it. */
  function PhotosOf(photos: seq<Photo>, userId: int): (r: seq<Photo>)
    ensures forall k :: 0 <= k < |r| ==> r[k] in photos && r[k].userId == userId
    ensures forall k :: 0 <= k < |photos| && photos[k].userId == userId ==> photos[k] in r
  {
    Where(photos, (p: Photo) => p.userId == userId)
  }

  /** `user.Photos.Any(p => p.IsMain)`. */
  function HasMainPhoto(photos: seq<Photo>, userId: int): (b: bool)
    ensures b <==> MainExists(photos, userId)
  {
    var own := PhotosOf(photos, userId);
    var b := Any(own, (p: Photo) => p.isMain);
    assert b ==> exists k :: 0 <= k < |photos| && photos[k].userId == userId && photos[k].isMain by {
      if b {
        var j :| 0 <= j < |own| && own[j].isMain;
        var k :| 0 <= k < |photos| && photos[k] == own[j];
      }
    }
    assert (exists k :: 0 <= k < |photos| && photos[k].userId == userId && photos[k].isMain) ==> b by {
      if k :| 0 <= k < |photos| && photos[k].userId == userId && photos[k].isMain {
        var j :| 0 <= j < |own| && own[j] == photos[k];
      }
    }
    b
  }

  /** `user.Photos.Any(p => p.Id == id)`: the user owns a photo with that id. */
  function OwnsPhoto(photos: seq<Photo>, userId: int, id: int): (b: bool)
    ensures b <==> exists k :: 0 <= k < |photos| && photos[k].userId == userId && photos[k].id == id
  {
    var own := PhotosOf(photos, userId);
    var b := Any(own, (p: Photo) => p.id == id);
    assert b ==> exists k :: 0 <= k < |photos| && photos[k].userId == userId && photos[k].id == id by {
      if b {
        var j :| 0 <= j < |own| && own[j].id == id;
        var k :| 0 <= k < |photos| && photos[k] == own[j];
      }
    }
    assert (exists k :: 0 <= k < |photos| && photos[k].userId == userId && photos[k].id == id) ==> b by {
      if k :| 0 <= k < |photos| && photos[k].userId == userId && photos[k].id == id {
        var j :| 0 <= j < |own| && own[j] == photos[k];
      }
    }
    b
  }

  /** `GetMainPhotoForUser`: a main photo of that user, or null when there is none. */
  function GetMainPhotoForUser(photos: seq<Photo>, userId: int): (r: Option<Photo>)
    ensures r.Some? ==> r.value in photos && r.value.userId == userId && r.value.isMain
    ensures r.None? <==> !HasMainPhoto(photos, userId)
  {
    var own := PhotosOf(photos, userId);
    FirstOrDefault(own, (p: Photo) => p.isMain)
  }

  /** When no member has two main photos, the lookup finds the one there is. */
  lemma MainPhotoIsTheOnlyMain(photos: seq<Photo>, k: int)
    requires AtMostOneMainPerUser(photos)
    requires 0 <= k < |photos| && photos[k].isMain
    ensures GetMainPhotoForUser(photos, photos[k].userId) == Some(photos[k])
  {
    var r := GetMainPhotoForUser(photos, photos[k].userId);
    var i :| 0 <= i < |photos| && photos[i] == r.value;
  }

  /** Whether the age filter applies: not when both bounds are at their defaults. */
  predicate AgeFilterApplies(minAge: int, maxAge: int)
  {
    minAge != DefaultMinAge || maxAge != DefaultMaxAge
  }

  /** The birth-date window `today - (maxAge + 1) years <= dob <= today - minAge years`. */
  predicate InDobWindow(dob: Date, today: Date, minAge: int, maxAge: int)
  {
    NotAfter(AddYears(today, -maxAge - 1), dob) && NotAfter(dob, AddYears(today, -minAge))
  }

  /** The listing rule for one member: not the caller, of the requested gender,
      and inside the birth-date window when the age filter applies. */
  predicate Listed(u: User, callerId: int, gender: Option<string>, minAge: int, maxAge: int, today: Date)
  {
    u.id != callerId && u.gender == gender &&
    (AgeFilterApplies(minAge, maxAge) ==> InDobWindow(u.dateOfBirth, today, minAge, maxAge))
  }

  /** `users.Where(u => u.Id != userParams.UserId)`. */
  function ExcludeCaller(users: seq<User>, callerId: int): (r: seq<User>)
    ensures multiset(r) <= multiset(users)
    ensures forall k :: 0 <= k < |r| ==> r[k] in users && r[k].id != callerId
    ensures forall k :: 0 <= k < |users| && users[k].id != callerId ==> users[k] in r
  {
    Where(users, (u: User) => u.id != callerId)
  }

  /** `users.Where(u => u.Gender == userParams.Gender)`. */
  function KeepGender(users: seq<User>, gender: Option<string>): (r: seq<User>)
    ensures multiset(r) <= multiset(users)
    ensures forall k :: 0 <= k < |r| ==> r[k] in users && r[k].gender == gender
    ensures forall k :: 0 <= k < |users| && users[k].gender == gender ==> users[k] in r
  {
    Where(users, (u: User) => u.gender == gender)
  }

  /** `users.Where(u => u.DateOfBirth >= minDob && u.DateOfBirth <= maxDob)`, the two
      bounds computed once from today. */
  function KeepDobWindow(users: seq<User>, today: Date, minAge: int, maxAge: int): (r: seq<User>)
    ensures multiset(r) <= multiset(users)
    ensures forall k :: 0 <= k < |r| ==> r[k] in users && InDobWindow(r[k].dateOfBirth, today, minAge, maxAge)
    ensures forall k :: 0 <= k < |users| && InDobWindow(users[k].dateOfBirth, today, minAge, maxAge) ==> users[k] in r
  {
    var minDob := AddYears(today, -maxAge - 1);
    var maxDob := AddYears(today, -minAge);
    Where(users, (u: User) => NotAfter(minDob, u.dateOfBirth) && NotAfter(u.dateOfBirth, maxDob))
  }

  /** `GetUsers` before paging: the members the listing rule keeps, taken from the
      users table without adding any. */
  function GetUsers(users: seq<User>, p: UserParams, today: Date): (r: seq<User>)
    reads p
    ensures multiset(r) <= multiset(users)
    ensures forall k :: 0 <= k < |r| ==> Listed(r[k], p.userId, p.gender, p.minAge, p.maxAge, today)
    ensures forall k :: 0 <= k < |users| ==>
      (users[k] in r <==> Listed(users[k], p.userId, p.gender, p.minAge, p.maxAge, today))
  {
    var matching := KeepGender(ExcludeCaller(users, p.userId), p.gender);
    if AgeFilterApplies(p.minAge, p.maxAge) then KeepDobWindow(matching, today, p.minAge, p.maxAge)
    else matching
  }

  /** For a birth date and a today that are not 29 February, the window keeps exactly
      the members whose CalculateAge is at least `minAge` and at most `maxAge`, plus
      those turning `maxAge + 1` today: the lower bound is inclusive. */
  lemma AgeWindowByAge(dob: Date, today: Date, minAge: int, maxAge: int)
    requires !IsLeapDay(dob) && !IsLeapDay(today)
    ensures InDobWindow(dob, today, minAge, maxAge) <==>
      minAge <= CalculateAge(dob, today) &&
      (CalculateAge(dob, today) <= maxAge || AddYears(dob, maxAge + 1) == today)
  {
    ShiftNotAfter(dob, today, minAge);
    AgeAtLeast(dob, today, minAge);
    ShiftBefore(dob, today, maxAge + 1);
    AgeAtLeast(dob, today, maxAge + 1);
  }

  /** On the day someone turns `maxAge + 1` they are still inside the window. */
  lemma WindowAdmitsBirthdayAfterMaxAge()
    ensures var dob: Date, today: Date := CalendarDate(1993, 6, 10), CalendarDate(2024, 6, 10);
      InDobWindow(dob, today, 20, 30) && CalculateAge(dob, today) == 31
  {
  }

  /** Someone born on 29 February is 18 by CalculateAge on 28 February eighteen years
      later (a non-leap year), yet falls outside an 18-to-30 window that day. */
  lemma WindowMissesLeapDayBirth()
    ensures var dob: Date, today: Date := CalendarDate(2004, 2, 29), CalendarDate(2022, 2, 28);
      !InDobWindow(dob, today, 18, 30) && CalculateAge(dob, today) == 18
  {
  }
}
