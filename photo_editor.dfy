/** The client's photo editor (members/photo-editor/photo-editor.component.ts):
    the gallery array it shows and the navbar photo it keeps in step. Each server
    call is an argument saying whether it succeeded, and the confirmation dialog
    is an argument saying whether the member confirmed. */
module PhotoEditor {
  import opened Queries

  /** The client's photo record, as the upload handler copies it from the response. */
  datatype Photo = Photo(id: int, url: string, dateAdded: string, description: string, isMain: bool)

  /** `photos.filter(p => p.isMain === true)[0]`, as a position: the first main
      photo, or -1 when there is none. */
  function FirstMainIndex(photos: seq<Photo>): (i: int)
    ensures -1 <= i < |photos|
    ensures i == -1 <==> forall k :: 0 <= k < |photos| ==> !photos[k].isMain
    ensures 0 <= i ==> photos[i].isMain && forall k :: 0 <= k < i ==> !photos[k].isMain
  {
    FindIndex(photos, (p: Photo) => p.isMain)
  }

  /** `photos.findIndex(p => p.id === id)`: the first photo with that id, or -1. */
  function IndexOfPhoto(photos: seq<Photo>, id: int): (i: int)
    ensures -1 <= i < |photos|
    ensures i == -1 <==> forall k :: 0 <= k < |photos| ==> photos[k].id != id
    ensures 0 <= i ==> photos[i].id == id && forall k :: 0 <= k < i ==> photos[k].id != id
  {
    FindIndex(photos, (p: Photo) => p.id == id)
  }

  /** Where `Array.prototype.splice` starts on an array of length `len`: a negative
      start counts back from the end (but not past the front), a start beyond the end
      is the end. */
  function SpliceStart(len: nat, start: int): (i: int)
    ensures 0 <= i <= len
    ensures 0 <= start ==> i == if start < len then start else len
    ensures start < 0 ==> i == if len + start < 0 then 0 else len + start
  {
    if start < 0 then (if len + start < 0 then 0 else len + start)
    else if start < len then start
    else len
  }

  /** `s.splice(start, 1)`: removes the element at the resolved start, if there is one. */
  function SpliceOne<T>(s: seq<T>, start: int): (r: seq<T>)
    ensures SpliceStart(|s|, start) < |s| ==>
      |r| == |s| - 1 && multiset(r) + multiset{s[SpliceStart(|s|, start)]} == multiset(s)
    ensures SpliceStart(|s|, start) == |s| ==> r == s
  {
    var i := SpliceStart(|s|, start);
    if i < |s| then
      assert s == s[..i] + [s[i]] + s[i + 1..];
      s[..i] + s[i + 1..]
    else s
  }

  /** `splice(i, 1)` at a position inside the array removes that element and keeps
      the others in their order. */
  lemma SpliceOneAt<T>(s: seq<T>, i: int)
    requires 0 <= i < |s|
    ensures SpliceOne(s, i) == s[..i] + s[i + 1..]
    ensures forall k :: 0 <= k < i ==> SpliceOne(s, i)[k] == s[k]
    ensures forall k :: i <= k < |s| - 1 ==> SpliceOne(s, i)[k] == s[k + 1]
  {
  }

  /** `splice(-1, 1)` removes the last element, and leaves an empty array empty. */
  lemma SpliceMinusOne<T>(s: seq<T>)
    ensures s != [] ==> SpliceOne(s, -1) == s[..|s| - 1]
    ensures s == [] ==> SpliceOne(s, -1) == []
  {
  }

  /** The array after `setMainPhoto`'s two flag writes: the photo at `current` loses
      the flag, then the photo at `chosen` gains it. */
  function MoveMainFlag(photos: seq<Photo>, current: int, chosen: int): (r: seq<Photo>)
    requires 0 <= current < |photos| && 0 <= chosen < |photos|
    ensures |r| == |photos|
    ensures r[chosen] == photos[chosen].(isMain := true)
    ensures current != chosen ==> r[current] == photos[current].(isMain := false)
    ensures forall k :: 0 <= k < |r| && k != current && k != chosen ==> r[k] == photos[k]
  {
    var cleared := photos[current := photos[current].(isMain := false)];
    cleared[chosen := cleared[chosen].(isMain := true)]
  }

  /** The photo at `k` is the only main photo. */
  predicate OnlyMainAt(photos: seq<Photo>, k: int)
  {
    0 <= k < |photos| && forall i :: 0 <= i < |photos| ==> (photos[i].isMain <==> i == k)
  }

  /** When the array held exactly one main photo, moving the flag from it leaves
      exactly the chosen photo as main. */
  lemma MoveMainFlagKeepsOneMain(photos: seq<Photo>, current: int, chosen: int)
    requires OnlyMainAt(photos, current)
    requires 0 <= chosen < |photos|
    ensures FirstMainIndex(photos) == current
    ensures OnlyMainAt(MoveMainFlag(photos, current, chosen), chosen)
  {
    var r := MoveMainFlag(photos, current, chosen);
    forall i | 0 <= i < |r| ensures r[i].isMain <==> i == chosen {
      if i != current && i != chosen {
        assert r[i] == photos[i];
      }
    }
  }

  class PhotoEditorComponent {
    /** The `@Input() photos` array, shared with the member-edit page. */
    var photos: seq<Photo>
    /** `authService.currentUser.photoUrl`. */
    var currentUserPhotoUrl: string
    /** The last url passed to `authService.changeMemberPhoto`, which the navbar shows. */
    var memberPhotoUrl: string

    constructor (photos: seq<Photo>, currentUserPhotoUrl: string, memberPhotoUrl: string)
      ensures this.photos == photos
      ensures this.currentUserPhotoUrl == currentUserPhotoUrl && this.memberPhotoUrl == memberPhotoUrl
    {
      this.photos := photos;
      this.currentUserPhotoUrl := currentUserPhotoUrl;
      this.memberPhotoUrl := memberPhotoUrl;
    }

    /** The uploader's `onSuccessItem`: an empty response changes nothing; otherwise
        the copied photo is appended, and a main photo becomes the member's photo. */
    method OnSuccessItem(response: Option<Photo>)
      modifies this
      ensures response.None? ==> photos == old(photos)
      ensures response.Some? ==> photos == old(photos) + [response.value]
      ensures response.Some? && response.value.isMain ==>
        currentUserPhotoUrl == response.value.url && memberPhotoUrl == response.value.url
      ensures response.None? || !response.value.isMain ==>
        currentUserPhotoUrl == old(currentUserPhotoUrl) && memberPhotoUrl == old(memberPhotoUrl)
    {
      if response.Some? {
        var res := response.value;
        var photo := Photo(res.id, res.url, res.dateAdded, res.description, res.isMain);
        photos := photos + [photo];
        if photo.isMain {
          memberPhotoUrl := photo.url;
          currentUserPhotoUrl := photo.url;
        }
      }
    }

    /** `setMainPhoto` on the photo at position `chosen`. On the server's success the
        first main photo loses the flag and the chosen one gains it, and the chosen
        url becomes the member's photo. With no main photo in the array the first
        write throws (`undefined.isMain`) and nothing changes; a server error changes
        nothing either. */
    method SetMainPhoto(chosen: int, serverOk: bool)
      requires 0 <= chosen < |photos|
      modifies this
      ensures var current := FirstMainIndex(old(photos));
        if serverOk && current != -1 then
          photos == MoveMainFlag(old(photos), current, chosen) &&
          currentUserPhotoUrl == old(photos)[chosen].url && memberPhotoUrl == old(photos)[chosen].url
        else
          photos == old(photos) &&
          currentUserPhotoUrl == old(currentUserPhotoUrl) && memberPhotoUrl == old(memberPhotoUrl)
    {
      if !serverOk {
        return;
      }
      var current := FirstMainIndex(photos);
      if current == -1 {
        return;
      }
      photos := photos[current := photos[current].(isMain := false)];
      photos := photos[chosen := photos[chosen].(isMain := true)];
      memberPhotoUrl := photos[chosen].url;
      currentUserPhotoUrl := photos[chosen].url;
    }

    /** `deletePhoto(id)`: once the member confirms and the server succeeds, splices
        out the position `findIndex` gives, which is -1 (the last photo) when no
        photo has that id. */
    method DeletePhoto(id: int, confirmed: bool, serverOk: bool)
      modifies this`photos
      ensures photos == if confirmed && serverOk then SpliceOne(old(photos), IndexOfPhoto(old(photos), id))
                        else old(photos)
    {
      if confirmed && serverOk {
        photos := SpliceOne(photos, IndexOfPhoto(photos, id));
      }
    }
  }

  /** Deleting a photo that is in the array removes the first photo with that id
      and keeps the others in order. */
  lemma DeletePresentRemovesIt(photos: seq<Photo>, id: int, k: int)
    requires 0 <= k < |photos| && photos[k].id == id
    ensures var i := IndexOfPhoto(photos, id);
      0 <= i <= k && photos[i].id == id &&
      SpliceOne(photos, i) == photos[..i] + photos[i + 1..]
  {
    SpliceOneAt(photos, IndexOfPhoto(photos, id));
  }

  /** Deleting an id that is not in the array removes the last photo. */
  lemma DeleteAbsentRemovesLast(photos: seq<Photo>, id: int)
    requires forall k :: 0 <= k < |photos| ==> photos[k].id != id
    ensures photos != [] ==> SpliceOne(photos, IndexOfPhoto(photos, id)) == photos[..|photos| - 1]
    ensures photos == [] ==> SpliceOne(photos, IndexOfPhoto(photos, id)) == []
  {
    SpliceMinusOne(photos);
  }
}
