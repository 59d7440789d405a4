# DatingApp core, modelled in Dafny

This project models the rule-bearing core of the DatingApp repository, which has an ASP.NET Core API and an Angular client. It proves properties of the model. It covers four pieces:

- **The member listing.** The `UserParams` object caps the page size and carries the defaults. `UsersController.GetUsers` fills in the caller's id and a default gender. `DatingRepository.GetUsers` then filters: it excludes the caller, keeps the requested gender, and applies a birth-date window only when the age bounds are not both at their defaults 18 and 99. `CalculateAge` is modelled too, with the .NET `AddYears` rule that turns 29 February into 28 February in a non-leap year.
- **The photo gallery's main-photo rules.**
  - On the server: the first upload becomes main, `SetMainPhoto` swaps the flag, the main photo cannot be deleted, and deleting a photo the media host holds depends on the host's answer.
  - On the client: the photo editor's array push, flag swap and `splice`.
- **Likes.** These are a set of directed (liker, likee) pairs, keyed by both ids.
- **Registration form validity.** This covers the Angular validators, the password-match check, and the gate in `register()`.

Modules, one per source concern:

| file | module | models |
|---|---|---|
| queries.dfy | `Queries` | LINQ `Where`/`FirstOrDefault`/`Any`, JavaScript `findIndex` |
| dates.dfy | `Dates` | calendar dates, `DateTime.AddYears`, `CalculateAge` |
| user_params.dfy | `Params` | `UserParams` (a class: the page-size setter writes a field) |
| dating_repository.dfy | `Repository` | entities, the `DataContext` tables, the repository queries |
| http.dfy | `Http` | the action results the controllers return |
| photos_controller.dfy | `PhotosController` | `AddPhotoForUser`, `SetMainPhoto`, `DeletePhoto` |
| users_controller.dfy | `UsersController` | `GetUsers`, `UpdateUser`, `LikeUser` |
| photo_editor.dfy | `PhotoEditor` | the client's `PhotoEditorComponent` |
| register.dfy | `Register` | the client's `RegisterComponent` |

Conventions:

- **Clock, token and remote services.** "Today" is a parameter. The caller's id from the token is a parameter. The media host's upload result and destroy verdict are parameters. The key the database's identity column gives a new photo is a parameter, known only to be above every key in use. Each client server call is a boolean saying whether it succeeded.
- **Tables and galleries.** Tables are sequences in storage order. A member's `Photos` collection is the photos table filtered by `userId`.
- **Exceptions.** An exception that escapes an action becomes `ServerError`, the framework's 500 answer. This covers a null dereference and a failed save that the action rethrows.
- **`SaveAll`.** It reports success exactly when the action changed a table, because EF Core counts modified rows.
- **Split controller actions.** A controller action that edits photos comes in two parts:
  - `…Edits` works on the entities the action loads and returns the response and the edited table.
  - The action on `DataContext` writes that table back, as `SaveAll` commits the tracked changes.

What the proofs establish, besides each operation's own contract:

- **Table invariants.** Photo keys are distinct and no member has two main photos, and every server action preserves both when requests are handled one after another. "Every gallery has a main photo" is preserved whenever it held before: adds, swaps and deletes never take a main photo away.
- **The age window in terms of age.** `AgeWindowByAge` applies to birth dates and todays that are not 29 February. For those, the window keeps exactly the members whose `CalculateAge` lies in [MinAge, MaxAge], plus the members turning MaxAge + 1 today. The lower date bound `today - (MaxAge + 1) years` is inclusive. `WindowAdmitsBirthdayAfterMaxAge` gives a concrete instance.
- **Leap-day births.** `WindowMissesLeapDayBirth` shows that a member born on 29 February can be inside the age range by `CalculateAge` and still outside the window.

## Model

| member | source | states |
|---|---|---|
| Queries.Where | DatingApp.API/Data/DatingRepository.cs:55-67 | the result is a sub-multiset of the input; it holds only elements satisfying the predicate and every input element that satisfies it |
| Queries.WhereConcat | DatingApp.API/Data/DatingRepository.cs:55-67 | filtering a concatenation filters each part, so the kept elements stay in their order |
| Queries.FindIndex | DatingApp-SPA/src/app/members/photo-editor/photo-editor.component.ts:98 | -1 exactly when no element matches; otherwise the position of a match with no match before it |
| Queries.FirstOrDefault | DatingApp.API/Data/DatingRepository.cs:29-33 | null exactly when nothing matches; otherwise a matching element of the sequence, the first one |
| Queries.Any | DatingApp.API/Controllers/PhotosController.cs:87 | true exactly when some element satisfies the predicate |
| Queries.WherePreservesPairwise | DatingApp.API/Data/DatingRepository.cs:24-27 | filtering keeps any property that held of every pair, such as distinct keys |
| Queries.WhereDropsExactlyOne | DatingApp.API/Data/DatingRepository.cs:24-27 | filtering out exactly one position removes that element and keeps the rest in order |
| Dates.AddYears | DatingApp.API/Data/DatingRepository.cs:64-65 | same month, year shifted by n, same day except that 29 February becomes 28 February in a non-leap target year |
| Dates.CalculateAge | DatingApp.API/Helpers/Extensions.cs:34-41 | the age is the year difference or one less |
| Dates.AgeAtLeast | DatingApp.API/Helpers/Extensions.cs:36-38 | age >= k exactly when the k-th birthday, as AddYears computes it, is not after today |
| Dates.AgeOnBirthday | DatingApp.API/Helpers/Extensions.cs:37 | on the birthday itself no year is taken off, because the comparison is strict |
| Dates.AgeNonNegative | DatingApp.API/Helpers/Extensions.cs:36-38 | a birth date not after today gives a non-negative age |
| Dates.AgeMonotone | DatingApp.API/Helpers/Extensions.cs:36-38 | a later birth date never gives a greater age |
| Params.ClampPageSize | DatingApp.API/Helpers/UserParams.cs:14 | the stored size is at most 50; values above 50 become 50; values at or below 50, zero and negatives included, are kept |
| Params.ClampPageSizeIdempotent | DatingApp.API/Helpers/UserParams.cs:11-14 | storing the value the getter returns changes nothing |
| Params.UserParams.constructor | DatingApp.API/Helpers/UserParams.cs:6-24 | a fresh object has page number 1, page size 10, MinAge 18, MaxAge 99, and null gender and order |
| Params.UserParams.PageSize | DatingApp.API/Helpers/UserParams.cs:11 | the getter returns a size of at most 50 |
| Params.UserParams.SetPageSize | DatingApp.API/Helpers/UserParams.cs:9-15 | the setter stores the clamped value, keeps the object valid and writes no other field |
| Repository.DataContext.constructor | DatingApp.API/Data/DataContext.cs:12-20 | the three tables as given, with user keys, photo keys and at-most-one-main-per-member holding |
| Repository.GetUser | DatingApp.API/Data/DatingRepository.cs:42-47 | a stored user with that id, or null exactly when no user has it |
| Repository.GetUserFindsStored | DatingApp.API/Data/DatingRepository.cs:42-47 | with distinct keys the lookup returns exactly the stored user |
| Repository.GetPhoto | DatingApp.API/Data/DatingRepository.cs:35-40 | a stored photo with that id, or null exactly when no photo has it |
| Repository.GetPhotoFindsStored | DatingApp.API/Data/DatingRepository.cs:35-40 | with distinct keys the lookup returns exactly the stored photo |
| Repository.PhotosOf | DatingApp.API/Data/DatingRepository.cs:44 | a member's `Photos` collection: exactly the stored photos with that user id |
| Repository.HasMainPhoto | DatingApp.API/Controllers/PhotosController.cs:87 | true exactly when some photo of the member is main |
| Repository.OwnsPhoto | DatingApp.API/Controllers/PhotosController.cs:110 | true exactly when the member has a photo with that id |
| Repository.GetMainPhotoForUser | DatingApp.API/Data/DatingRepository.cs:29-33 | a stored main photo of that member, or null exactly when the member has none |
| Repository.MainPhotoIsTheOnlyMain | DatingApp.API/Data/DatingRepository.cs:29-33 | when no member has two main photos, the lookup returns the one there is |
| Repository.ExcludeCaller | DatingApp.API/Data/DatingRepository.cs:55 | keeps exactly the users whose id is not the caller's |
| Repository.KeepGender | DatingApp.API/Data/DatingRepository.cs:58 | keeps exactly the users of the requested gender |
| Repository.KeepDobWindow | DatingApp.API/Data/DatingRepository.cs:61-68 | keeps exactly the users born inside the inclusive window [today - (MaxAge+1) years, today - MinAge years] |
| Repository.GetUsers | DatingApp.API/Data/DatingRepository.cs:49-71 | the result is a sub-multiset of the users; a user is in it exactly when they are not the caller, have the requested gender and, unless both bounds are 18 and 99, are born inside the window |
| Repository.AgeWindowByAge | DatingApp.API/Data/DatingRepository.cs:64-67 | off 29 February, the window holds exactly the ages MinAge..MaxAge plus the (MaxAge+1)-th birthday itself |
| Repository.WindowAdmitsBirthdayAfterMaxAge | DatingApp.API/Data/DatingRepository.cs:64-67 | a member turning 31 today is listed by a 20-to-30 search |
| Repository.WindowMissesLeapDayBirth | DatingApp.API/Data/DatingRepository.cs:64-67 | a 29 February birth aged 18 by CalculateAge is outside an 18-to-30 window |
| PhotosController.WithMainFlag | DatingApp.API/Controllers/PhotosController.cs:119-121 | exactly the photo with that key gets the flag value; every other photo is unchanged |
| PhotosController.SwapMain | DatingApp.API/Controllers/PhotosController.cs:119-121 | the photo with key `id` becomes main, the photo with the current main key stops being main, every other photo and the length are unchanged |
| PhotosController.WithoutPhoto | DatingApp.API/Data/DatingRepository.cs:24-27 | the table without the row of that key, and with every other row |
| PhotosController.AddKeepsInvariants | DatingApp.API/Controllers/PhotosController.cs:87-90 | appending a fresh-keyed photo that is main exactly when its owner had none keeps the keys distinct and one main per member, and the owner then has a main photo |
| PhotosController.AddKeepsGalleries | DatingApp.API/Controllers/PhotosController.cs:87-90 | after an append, every gallery that had a main photo still has one |
| PhotosController.RemoveKeepsInvariants | DatingApp.API/Controllers/PhotosController.cs:141-161 | deleting a photo that is not main removes exactly that row, keeps the others in order, keeps the invariants and keeps every main photo |
| PhotosController.KeepingMainsKeepsGalleries | DatingApp.API/Controllers/PhotosController.cs:141-143 | a table that keeps every main photo leaves no gallery without one |
| PhotosController.SwapMainKeepsInvariants | DatingApp.API/Controllers/PhotosController.cs:118-121 | the swap leaves exactly the chosen photo main among the member's photos, touches no other member's photo, and keeps the invariants |
| PhotosController.MovedKeepsInvariants | DatingApp.API/Controllers/PhotosController.cs:118-121 | moving a member's main flag onto one photo keeps keys distinct and one main per member |
| PhotosController.MovedKeepsGalleries | DatingApp.API/Controllers/PhotosController.cs:118-121 | moving a member's main flag onto one of their photos leaves every gallery with a main photo |
| PhotosController.SetMainSwapFacts | DatingApp.API/Controllers/PhotosController.cs:110-121 | once the guards pass, the swap moves the member's main flag onto photo `id` and keeps all invariants |
| PhotosController.DeleteFacts | DatingApp.API/Controllers/PhotosController.cs:137-161 | once the guards pass, the delete removes exactly one row and keeps all invariants and every main photo |
| PhotosController.AddPhotoForUser | DatingApp.API/Controllers/PhotosController.cs:53-100 | Unauthorized for another member's route, with no change; a server error with no change when the member is not stored; otherwise the photo is appended under the key the database assigns, which is above every key in use, and is main exactly when the member had no main photo; the invariants are kept |
| PhotosController.SetMainPhotoEdits | DatingApp.API/Controllers/PhotosController.cs:102-127 | the guards in source order: Unauthorized, then a server error for no user, Unauthorized for a photo not owned, BadRequest for a photo already main, a server error with no current main; only success changes the table, moving the flag and keeping the invariants |
| PhotosController.SetMainPhoto | DatingApp.API/Controllers/PhotosController.cs:102-127 | the same results on the context's photos table, written back only on success |
| PhotosController.DeletePhotoEdits | DatingApp.API/Controllers/PhotosController.cs:129-167 | Unauthorized and the main-photo refusal change nothing; a hosted photo is removed only when the host confirms, a local one always; success removes exactly that row and no main photo is ever lost |
| PhotosController.DeletePhoto | DatingApp.API/Controllers/PhotosController.cs:129-167 | the same results on the context's photos table |
| UsersController.OppositeGender | DatingApp.API/Controllers/UsersController.cs:40 | "female" exactly for a male caller, "male" for any other caller, a null gender included |
| UsersController.IsNullOrEmpty | DatingApp.API/Controllers/UsersController.cs:38 | true exactly for a null or zero-length gender |
| UsersController.OppositeGenderDiffers | DatingApp.API/Controllers/UsersController.cs:40 | the default gender differs from a male or a female caller's own |
| UsersController.GetUsers | DatingApp.API/Controllers/UsersController.cs:29-57 | UserId becomes the caller's id; a non-empty gender is kept, an empty one becomes the caller's opposite; a server error exactly when the gender is empty and the caller is not stored, and then the gender is left as sent; the listing never holds the caller and holds only the chosen gender |
| UsersController.WithProfile | DatingApp.API/Controllers/UsersController.cs:76 | only the member with that key gets the new profile |
| UsersController.WithProfileKeepsKeys | DatingApp.API/Controllers/UsersController.cs:76 | updating a profile keeps user keys distinct |
| UsersController.WithProfileFound | DatingApp.API/Controllers/UsersController.cs:74-76 | after the update the lookup returns the stored user with the new profile |
| UsersController.UpdateUser | DatingApp.API/Controllers/UsersController.cs:69-82 | Unauthorized for another member's id; a server error when no user is stored or nothing changes; otherwise the profile is merged with the form's fields and the action answers NoContent |
| UsersController.LikeUser | DatingApp.API/Controllers/UsersController.cs:84-118 | Unauthorized, then BadRequest for an existing like (checked before the recipient), then NotFound for a missing recipient, then a server error when the liker is not stored (the foreign key fails the save), all without change; success adds exactly that edge and the set grows by one; self-likes are allowed |
| PhotoEditor.FirstMainIndex | DatingApp-SPA/src/app/members/photo-editor/photo-editor.component.ts:74 | -1 exactly when no photo is main; otherwise the first main photo |
| PhotoEditor.IndexOfPhoto | DatingApp-SPA/src/app/members/photo-editor/photo-editor.component.ts:98 | -1 exactly when no photo has the id; otherwise the first photo with it |
| PhotoEditor.SpliceStart | DatingApp-SPA/src/app/members/photo-editor/photo-editor.component.ts:98 | a negative start counts back from the end, not past the front; a start past the end is the end |
| PhotoEditor.SpliceOne | DatingApp-SPA/src/app/members/photo-editor/photo-editor.component.ts:98 | removes exactly one element, the one at the resolved start, when there is one; otherwise changes nothing |
| PhotoEditor.SpliceOneAt | DatingApp-SPA/src/app/members/photo-editor/photo-editor.component.ts:98 | splicing inside the array removes that element and keeps the others in order |
| PhotoEditor.SpliceMinusOne | DatingApp-SPA/src/app/members/photo-editor/photo-editor.component.ts:98 | `splice(-1, 1)` removes the last element, and nothing from an empty array |
| PhotoEditor.MoveMainFlag | DatingApp-SPA/src/app/members/photo-editor/photo-editor.component.ts:74-76 | the old main photo loses the flag, the chosen photo gains it, and every other photo and the length are unchanged |
| PhotoEditor.MoveMainFlagKeepsOneMain | DatingApp-SPA/src/app/members/photo-editor/photo-editor.component.ts:74-76 | with exactly one main photo before, the filter finds it and exactly the chosen photo is main after |
| PhotoEditor.PhotoEditorComponent.constructor | DatingApp-SPA/src/app/members/photo-editor/photo-editor.component.ts:14-20 | the editor starts from the array it is given and the member's current photo url |
| PhotoEditor.PhotoEditorComponent.OnSuccessItem | DatingApp-SPA/src/app/members/photo-editor/photo-editor.component.ts:50-69 | an empty response changes nothing; otherwise the photo is appended, and a main photo's url becomes the member's photo |
| PhotoEditor.PhotoEditorComponent.SetMainPhoto | DatingApp-SPA/src/app/members/photo-editor/photo-editor.component.ts:72-88 | on success with a main photo present, the flag moves and the chosen url becomes the member's photo; a server error, or no main photo (the write throws), changes nothing |
| PhotoEditor.PhotoEditorComponent.DeletePhoto | DatingApp-SPA/src/app/members/photo-editor/photo-editor.component.ts:92-104 | only a confirmed, successful delete splices at the found position; otherwise the array is unchanged |
| PhotoEditor.DeletePresentRemovesIt | DatingApp-SPA/src/app/members/photo-editor/photo-editor.component.ts:98 | deleting an id that is present removes the first photo with it and keeps the others in order |
| PhotoEditor.DeleteAbsentRemovesLast | DatingApp-SPA/src/app/members/photo-editor/photo-editor.component.ts:98 | deleting an id that is absent removes the last photo |
| Register.InitialForm | DatingApp-SPA/src/app/register/register.component.ts:34-45 | gender starts as "male", every other control empty and the date null |
| Register.PasswordControlValidIff | DatingApp-SPA/src/app/register/register.component.ts:42 | the password control is valid exactly for 4 to 8 characters |
| Register.PasswordMatchValidator | DatingApp-SPA/src/app/register/register.component.ts:48-50 | null exactly when the two passwords are equal, the mismatch error otherwise |
| Register.FormValid | DatingApp-SPA/src/app/register/register.component.ts:54 | the `registerForm.valid` gate: a valid form has a picked date, a password of 4 to 8 characters and a matching confirmation |
| Register.FormValidIff | DatingApp-SPA/src/app/register/register.component.ts:34-50 | the form is valid exactly when all required fields are filled, the password has 4 to 8 characters and the confirmation equals it |
| Register.ValidConfirmationLength | DatingApp-SPA/src/app/register/register.component.ts:42-49 | in a valid form the confirmation also has 4 to 8 characters |
| Register.InitialFormInvalid | DatingApp-SPA/src/app/register/register.component.ts:34-45 | the form as first built cannot be submitted |
| Register.RegisterComponent.constructor | DatingApp-SPA/src/app/register/register.component.ts:27-32 | after initialisation the form holds its initial values and no user is set |
| Register.RegisterComponent.CreateRegisterForm | DatingApp-SPA/src/app/register/register.component.ts:34-45 | the controls are reset to their initial, invalid values |
| Register.RegisterComponent.Register | DatingApp-SPA/src/app/register/register.component.ts:53-70 | an invalid form changes nothing; a valid one is copied into `user`, whose password then has 4 to 8 characters |

## Left out

- **Media host.** The Cloudinary upload and the `Destroy` call are left out. The upload's url and public id, and the destroy verdict, are arguments.
- **Identity keys.** The database picks a new photo's key when the row is saved. `PhotosController.AddPhotoForUser` takes that key as an argument and relies only on its being above every key in use; the model does not record that the identity column never gives out a deleted key again.
- **Zero-length uploads.** With an empty file the source dereferences an unset upload result. The model assumes a non-empty upload.
- **Paging.** `PagedList` is not part of this model: `Repository.GetUsers` returns every kept member, unpaged. The `AddPagination` header serialisation is left out too.
- **Ordering.** `UserParams.OrderBy` is bound but never read, so no ordering is modelled. The source has no likers/likees filtering and no sorting.
- **Left-out files.** Token issuance and login (`AuthController`), `LogUserActivity` (clock and I/O; it runs after every `UsersController` action and dereferences the caller's stored user at `LogUserActivity.cs:31-33`, so a caller with no stored user gets a 500 even where a `UsersController` action is modelled as answering otherwise, as `UsersController.GetUsers` does for such a caller who sends a gender), and AutoMapper's reflection-based mapping.
- **Client plumbing.** Angular routing, HTTP services and resolvers. The alertify notifications and the `localStorage` writes.
- **Database failures.** EF Core persistence is reduced to tables held in memory. A database failure inside `SaveAll` is not modelled; a save fails only when nothing changed.
- **Unreachable save-failure branches.** "Could not add the photo", "Could not set photo to main" and "Failed to like user" can only arise from such a database failure, so no model path reaches them.
- **Entity tracking.** Photos and users are values, updated by primary key, not tracked objects. The server photo's `DateAdded` and `Description` are not modelled.
- **`LikeUser`'s `GetLike`.** `IDatingRepository.GetLike` is not part of this model; it is taken to be membership in the likes set under its composite key.
- **`UsersController.GetUser`.** The read-only action is a lookup plus mapping. It is covered by `Repository.GetUser`.
- **`UpdateUser` field copy.** The form's fields are a map from property name to value. AutoMapper copies null values too; they are not distinguished.
- **Integer and string widths.** .NET `Int32` bounds and JavaScript number limits are not modelled; integers are unbounded. Client string lengths count `char`s, not UTF-16 code units.
- **Concurrent requests.** Actions are modelled as running one at a time. In the source the main-photo check (`PhotosController.cs:87`) and the save (`:92`) are separate steps, as are `SetMainPhoto`'s reads (`:108-118`) and flag writes (`:119-121`). Two interleaved uploads by a member with no main photo would both become main, and two interleaved swaps can leave two main photos. The invariant proofs do not cover such interleavings.
- **Time of day.** Dates are calendar days at midnight; the time of day in a stored `DateOfBirth` is not modelled. A birth date stored with a later time makes `theDateTime.AddYears(age) > DateTime.Today` true on the birthday itself (`Extensions.cs:37`) and falls outside the window's upper bound (`DatingRepository.cs:67`), so `Dates.AgeOnBirthday` and the window lemmas hold only for birth dates stored at midnight.
- **`AddYears` range.** Its exception outside years 1 to 9999 is not modelled.
- **Client-only state.** The photo editor's `currentMain` field and the `changeMemberPhoto` broadcast are reduced to the last url broadcast (`memberPhotoUrl`). The photo passed to `setMainPhoto` is identified by its position in the array.
- **Form controls.** Angular's value types are reduced: the date picker's value is a calendar date or null, and every other control is a string.
- Repository.AgeWindowByAge: stated only for birth dates and todays that are not 29 February. There `AddYears` clamps, and the window and `CalculateAge` can disagree; `Repository.WindowMissesLeapDayBirth` shows one case.
