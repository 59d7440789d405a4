/** Controllers/UsersController.cs: the member listing's parameter completion,
    the profile update and the like action. The caller's id comes from the token
    and is an argument here. */
module UsersController {
  import opened Queries
  import opened Dates
  import opened Params
  import opened Repository
  import opened Http

  /** `string.IsNullOrEmpty`. */
  function IsNullOrEmpty(s: Option<string>): (b: bool)
    ensures b <==> s.None? || |s.value| == 0
  {
    s == None || s == Some("")
  }

  /** The gender listed by default: "female" for a male caller, "male" for any other
      caller, a caller whose gender is null included. */
  function OppositeGender(callerGender: Option<string>): (g: string)
    ensures g == "female" || g == "male"
    ensures g == "female" <==> callerGender == Some("male")
  {
    if callerGender == Some("male") then "female" else "male"
  }

  /** The default never lists a male or a female caller's own gender. */
  lemma OppositeGenderDiffers(callerGender: Option<string>)
    requires callerGender == Some("male") || callerGender == Some("female")
    ensures Some(OppositeGender(callerGender)) != callerGender
  {
  }

  /** `GetUsers`: fills in the caller's id and, when the client sent no gender, the
      default one, then lists the members `Repository.GetUsers` keeps (before paging).
      With no gender sent and no stored caller, reading the caller's gender
      dereferences null. */
  method GetUsers(db: DataContext, p: UserParams, callerId: int, today: Date) returns (result: ActionResult)
    modifies p`userId, p`gender
    ensures p.userId == callerId
    ensures !IsNullOrEmpty(old(p.gender)) ==> p.gender == old(p.gender)
    ensures IsNullOrEmpty(old(p.gender)) && GetUser(db.users, callerId).Some? ==>
      p.gender == Some(OppositeGender(GetUser(db.users, callerId).value.gender))
    ensures result == ServerError <==> IsNullOrEmpty(old(p.gender)) && GetUser(db.users, callerId).None?
    ensures result == ServerError ==> p.gender == old(p.gender)
    ensures result != ServerError ==> result == OkUsers(Repository.GetUsers(db.users, p, today))
    ensures result.OkUsers? ==> !IsNullOrEmpty(p.gender)
    ensures result.OkUsers? ==> forall k :: 0 <= k < |result.users| ==>
      result.users[k].id != callerId && result.users[k].gender == p.gender
  {
    var userFromRepo := GetUser(db.users, callerId);
    p.userId := callerId;
    if IsNullOrEmpty(p.gender) {
      if userFromRepo.None? {
        // `userFromRepo.Gender` dereferences null
        return ServerError;
      }
      p.gender := Some(OppositeGender(userFromRepo.value.gender));
    }
    var users := Repository.GetUsers(db.users, p, today);
    return OkUsers(users);
  }

  /** The users table with member `id`'s profile replaced. */
  function WithProfile(users: seq<User>, id: int, profile: map<string, string>): (r: seq<User>)
    ensures |r| == |users|
    ensures forall k :: 0 <= k < |r| ==>
      r[k] == if users[k].id == id then users[k].(profile := profile) else users[k]
  {
    seq(|users|, k requires 0 <= k < |users| =>
      if users[k].id == id then users[k].(profile := profile) else users[k])
  }

  /** Replacing a profile keeps every key, so the keys stay distinct. */
  lemma WithProfileKeepsKeys(users: seq<User>, id: int, profile: map<string, string>)
    requires UserIdsDistinct(users)
    ensures UserIdsDistinct(WithProfile(users, id, profile))
  {
    var r := WithProfile(users, id, profile);
    forall i, j | 0 <= i < j < |r| ensures UserIdsDiffer(r[i], r[j]) {
      assert UserIdsDiffer(users[i], users[j]);
    }
  }

  /** With distinct keys, only the member with key `id` is touched, and GetUser
      then finds the new profile. */
  lemma WithProfileFound(users: seq<User>, id: int, profile: map<string, string>)
    requires UserIdsDistinct(users) && GetUser(users, id).Some?
    ensures GetUser(WithProfile(users, id, profile), id) == Some(GetUser(users, id).value.(profile := profile))
  {
    var r := WithProfile(users, id, profile);
    WithProfileKeepsKeys(users, id, profile);
    var i :| 0 <= i < |users| && users[i] == GetUser(users, id).value;
    assert r[i] == users[i].(profile := profile);
    GetUserFindsStored(r, i);
  }

  /** `UpdateUser`: copies the update form's fields (`changes`, by property name)
      onto the caller's stored profile. `SaveAll` succeeds only when a value
      changed; otherwise, and when there is no stored user to update, the action
      throws. */
  method UpdateUser(db: DataContext, callerId: int, id: int, changes: map<string, string>)
    returns (result: ActionResult)
    requires db.Valid()
    modifies db`users
    ensures db.Valid()
    ensures id != callerId ==> result == Unauthorized
    ensures id == callerId && GetUser(old(db.users), id).None? ==> result == ServerError
    ensures id == callerId && GetUser(old(db.users), id).Some? ==>
      var stored := GetUser(old(db.users), id).value;
      result == (if stored.profile + changes == stored.profile then ServerError else NoContent)
    ensures result != NoContent ==> db.users == old(db.users)
    ensures result == NoContent ==>
      var stored := GetUser(old(db.users), id).value;
      db.users == WithProfile(old(db.users), id, stored.profile + changes) &&
      GetUser(db.users, id) == Some(stored.(profile := stored.profile + changes))
  {
    if id != callerId {
      return Unauthorized;
    }
    var userFromRepo := GetUser(db.users, id);
    if userFromRepo.None? {
      // nothing is tracked, so the save reports no change and the action throws
      return ServerError;
    }
    var merged := userFromRepo.value.profile + changes;
    if merged == userFromRepo.value.profile {
      // `SaveAll` reports no change and the action throws
      return ServerError;
    }
    WithProfileKeepsKeys(db.users, id, merged);
    WithProfileFound(db.users, id, merged);
    db.users := WithProfile(db.users, id, merged);
    return NoContent;
  }

  /** `LikeUser`: records that `id` likes `recipientId`. An existing like is
      refused before the recipient is looked up; liking oneself is allowed. The
      liker is a foreign key to the users table, so when the caller is not stored
      the save throws and nothing is recorded. */
  method LikeUser(db: DataContext, callerId: int, id: int, recipientId: int) returns (result: ActionResult)
    modifies db`likes
    ensures id != callerId ==> result == Unauthorized
    ensures id == callerId && Like(id, recipientId) in old(db.likes) ==>
      result == BadRequest("you already like this user")
    ensures id == callerId && Like(id, recipientId) !in old(db.likes) ==>
      result == (if GetUser(db.users, recipientId).None? then NotFound
                 else if GetUser(db.users, id).None? then ServerError
                 else Ok)
    ensures result != Ok ==> db.likes == old(db.likes)
    ensures result == Ok ==>
      db.likes == old(db.likes) + {Like(id, recipientId)} && |db.likes| == |old(db.likes)| + 1
  {
    if id != callerId {
      return Unauthorized;
    }
    if Like(id, recipientId) in db.likes {
      return BadRequest("you already like this user");
    }
    if GetUser(db.users, recipientId).None? {
      return NotFound;
    }
    if GetUser(db.users, id).None? {
      // the new row's `LikerId` names no user, so `SaveAll` throws
      return ServerError;
    }
    db.likes := db.likes + {Like(id, recipientId)};
    return Ok;
  }
}
