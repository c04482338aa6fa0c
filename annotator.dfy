/** The author view: the state of the `PhotoAnnotator` component and its event
    handlers, each taken as one step. Every service answer is an argument. */
module Annotator {
  import opened Types
  import opened Backend
  import opened Coordinates
  import opened Text
  import ShortId
  import Storage
  import Supabase

  const BucketName := "photos"

  /** `${Math.random()}.${file.name.split('.').pop()}`: unlike the storage helper,
      the author view keeps the extension's case. */
  function UploadFileName(token: string, name: string): (r: string)
    ensures StartsWith(r, token + ".")
  {
    AfterLastDotOfJoin(token, AfterLastDot(name));
    token + "." + AfterLastDot(name)
  }

  /** The stored name is the token, one dot and the original name's extension,
      as `split('.').pop()` reads it. */
  lemma UploadFileNameExtension(token: string, name: string)
    ensures AfterLastDot(UploadFileName(token, name)) == AfterLastDot(name)
    ensures |UploadFileName(token, name)| == |token| + 1 + |AfterLastDot(name)|
  {
    AfterLastDotOfJoin(token, AfterLastDot(name));
  }

  /** The author view stores `<token>.<ext>` with the extension exactly as the
      file name has it, so `a.JPG` is stored as `t.JPG`. */
  lemma UploadFileNameKeepsCase(token: string, stem: string, ext: string)
    requires '.' !in ext
    ensures UploadFileName(token, stem + "." + ext) == token + "." + ext
  {
    AfterLastDotOfJoin(stem, ext);
  }

  /** For `a.JPG` the author view stores `t.JPG`, while `uploadImage` would store `t.jpg`. */
  lemma UploadNamesDifferInCase()
    ensures UploadFileName("t", "a.JPG") == "t.JPG"
    ensures Supabase.UploadPath("t", "a.JPG") == "t.jpg"
  {
    UploadFileNameKeepsCase("t", "a", "JPG");
    assert "a" + "." + "JPG" == "a.JPG";
    var lower := ToLower("JPG");
    assert lower[0] == 'j' && lower[1] == 'p' && lower[2] == 'g';
    assert lower == "jpg";
    assert AfterLastDot("a.JPG") == "JPG";
  }

  /** `tooltips.filter((t) => t.id !== id)`. */
  function WithoutId(ts: seq<Tooltip>, id: string): (r: seq<Tooltip>)
    ensures |r| <= |ts|
  {
    if |ts| == 0 then []
    else WithoutId(ts[..|ts| - 1], id) + (if ts[|ts| - 1].id == id then [] else [ts[|ts| - 1]])
  }

  /** The filter keeps exactly the tooltips whose id differs. */
  lemma {:induction false} WithoutIdMembers(ts: seq<Tooltip>, id: string, t: Tooltip)
    ensures t in WithoutId(ts, id) <==> t in ts && t.id != id
  {
    if |ts| > 0 {
      WithoutIdMembers(ts[..|ts| - 1], id, t);
      assert ts == ts[..|ts| - 1] + [ts[|ts| - 1]];
    }
  }

  /** The filter works piece by piece, so the tooltips kept stay in their order. */
  lemma {:induction false} WithoutIdAppend(a: seq<Tooltip>, b: seq<Tooltip>, id: string)
    ensures WithoutId(a + b, id) == WithoutId(a, id) + WithoutId(b, id)
    decreases |b|
  {
    if |b| == 0 {
      assert a + b == a;
    } else {
      var b' := b[..|b| - 1];
      assert (a + b)[..|a + b| - 1] == a + b';
      WithoutIdAppend(a, b', id);
    }
  }

  /** Nothing is removed when no tooltip has the id. */
  lemma {:induction false} WithoutAbsentId(ts: seq<Tooltip>, id: string)
    requires forall i :: 0 <= i < |ts| ==> ts[i].id != id
    ensures WithoutId(ts, id) == ts
  {
    if |ts| > 0 {
      WithoutAbsentId(ts[..|ts| - 1], id);
      assert ts[..|ts| - 1] + [ts[|ts| - 1]] == ts;
    }
  }

  /** Unique ids: no other tooltip shares tooltip k's id. */
  lemma OthersHaveOtherIds(ts: seq<Tooltip>, k: int)
    requires UniqueIds(ts) && 0 <= k < |ts|
    ensures forall i :: 0 <= i < |ts| && i != k ==> ts[i].id != ts[k].id
  {
  }

  /** Removing an id that only the middle tooltip has leaves the pieces
      around it, joined. */
  lemma WithoutSplit(pre: seq<Tooltip>, t: Tooltip, post: seq<Tooltip>, id: string)
    requires forall i :: 0 <= i < |pre| ==> pre[i].id != id
    requires forall i :: 0 <= i < |post| ==> post[i].id != id
    requires t.id == id
    ensures WithoutId(pre + [t] + post, id) == pre + post
  {
    WithoutAbsentId(pre, id);
    WithoutAbsentId(post, id);
    assert WithoutId([t], id) == [] by {
      assert [t][..0] == [];
    }
    WithoutIdAppend(pre + [t], post, id);
    WithoutIdAppend(pre, [t], id);
  }

  /** With unique ids, removing the id of a listed tooltip removes exactly that
      one tooltip and keeps the others. */
  lemma WithoutListedId(ts: seq<Tooltip>, k: int)
    requires UniqueIds(ts) && 0 <= k < |ts|
    ensures WithoutId(ts, ts[k].id) == ts[..k] + ts[k + 1..]
    ensures |WithoutId(ts, ts[k].id)| == |ts| - 1
  {
    var pre, post := ts[..k], ts[k + 1..];
    OthersHaveOtherIds(ts, k);
    forall i | 0 <= i < |pre| ensures pre[i].id != ts[k].id {
      assert pre[i] == ts[i];
    }
    forall i | 0 <= i < |post| ensures post[i].id != ts[k].id {
      assert post[i] == ts[k + 1 + i];
    }
    assert ts == pre + [ts[k]] + post;
    WithoutSplit(pre, ts[k], post, ts[k].id);
  }

  class PhotoAnnotator {
    var photo: Option<ShownPhoto>
    var imageLoaded: bool
    var tooltips: seq<Tooltip>
    var newTooltip: Option<Point>
    var tooltipText: string
    var loading: bool
    var isEditOpen: bool

    /** Between two handlers no upload is in flight, and the editor is only open
        over a pending position. */
    ghost predicate Valid()
      reads this
    {
      !loading && (isEditOpen ==> newTooltip.Some?)
    }

    constructor ()
      ensures Valid()
      ensures photo == None && !imageLoaded && tooltips == [] && newTooltip == None
      ensures tooltipText == "" && !loading && !isEditOpen
    {
      photo := None;
      imageLoaded := false;
      tooltips := [];
      newTooltip := None;
      tooltipText := "";
      loading := false;
      isEditOpen := false;
    }

    /** `handleUpload`. `file` is the chosen file, if any; `token` stands for the
        `Math.random()` of the file name and `draws` for the six of the short id;
        `uploadFails` is the storage answer, `publicUrl` what `getPublicUrl`
        builds, `inserted` the database answer to the photo insert. */
    method HandleUpload(file: Option<Storage.FileInfo>, token: string, uploadFails: bool,
                        publicUrl: string, draws: seq<real>, inserted: Reply<Photo>)
      returns (requests: seq<Request>)
      requires Valid()
      requires |draws| == ShortId.IdLength && ShortId.AllRandom(draws)
      modifies this
      ensures Valid()
      ensures file.None? ==> requests == []
      ensures file.Some? && uploadFails ==>
        requests == [StoreObject(BucketName, UploadFileName(token, file.value.name))]
      ensures file.Some? && !uploadFails ==>
        && |requests| == 2
        && requests[0] == StoreObject(BucketName, UploadFileName(token, file.value.name))
        && requests[1].InsertPhoto? && requests[1].imageUrl == publicUrl
        && ShortId.Generated(requests[1].shortId, draws)
      ensures photo == if file.Some? && !uploadFails && inserted.Ok?
                       then Some(ShownPhoto(inserted.value, publicUrl)) else old(photo)
      ensures tooltips == old(tooltips) && newTooltip == old(newTooltip)
      ensures tooltipText == old(tooltipText) && isEditOpen == old(isEditOpen)
      ensures imageLoaded == old(imageLoaded)
    {
      if file.None? {
        return [];
      }
      loading := true;
      var store := StoreObject(BucketName, UploadFileName(token, file.value.name));
      if uploadFails {
        requests := [store];
      } else {
        var shortId := ShortId.GenerateShortId(draws);
        requests := [store, InsertPhoto(publicUrl, shortId)];
        if inserted.Ok? {
          photo := Some(ShownPhoto(inserted.value, publicUrl));
        }
      }
      loading := false;
    }

    /** `handleImageClick`: refused while the editor is open; otherwise the click
        position, unclamped, replaces any pending position. */
    method HandleImageClick(clientX: real, clientY: real, rect: Rect)
      requires Valid() && HasArea(rect)
      modifies this
      ensures Valid()
      ensures old(isEditOpen) ==> newTooltip == old(newTooltip)
      ensures !old(isEditOpen) ==> newTooltip == Some(ToRelative(clientX, clientY, rect))
      ensures photo == old(photo) && tooltips == old(tooltips) && tooltipText == old(tooltipText)
      ensures isEditOpen == old(isEditOpen) && imageLoaded == old(imageLoaded) && loading == old(loading)
    {
      if isEditOpen {
        return;
      }
      newTooltip := Some(ToRelative(clientX, clientY, rect));
    }

    /** The textarea's `onChange`. */
    method EditText(text: string)
      requires Valid()
      modifies this
      ensures Valid()
      ensures tooltipText == text
      ensures photo == old(photo) && tooltips == old(tooltips) && newTooltip == old(newTooltip)
      ensures isEditOpen == old(isEditOpen) && imageLoaded == old(imageLoaded) && loading == old(loading)
    {
      tooltipText := text;
    }

    /** `handleTooltipSubmit`. `inserted` is the database answer to the insert. */
    method HandleTooltipSubmit(inserted: Reply<TooltipRow>) returns (requests: seq<Request>)
      requires Valid()
      modifies this
      ensures Valid()
      ensures old(newTooltip).None? || old(photo).None? ==>
        requests == [] && tooltips == old(tooltips) && newTooltip == old(newTooltip)
        && tooltipText == old(tooltipText) && isEditOpen == old(isEditOpen)
      ensures old(newTooltip).Some? && old(photo).Some? ==>
        && requests == [InsertTooltip(old(photo).value.row.id, old(newTooltip).value.x,
                                      old(newTooltip).value.y, old(tooltipText))]
        && !isEditOpen
        && (inserted.Ok? ==> tooltips == old(tooltips) + [FromRow(inserted.value)]
                             && newTooltip == None && tooltipText == "")
        && (inserted.Failed? ==> tooltips == old(tooltips) && newTooltip == old(newTooltip)
                                 && tooltipText == old(tooltipText))
      ensures photo == old(photo) && imageLoaded == old(imageLoaded) && loading == old(loading)
    {
      requests := [];
      if newTooltip.None? || photo.None? {
        return;
      }
      requests := [InsertTooltip(photo.value.row.id, newTooltip.value.x, newTooltip.value.y, tooltipText)];
      if inserted.Ok? {
        tooltips := tooltips + [FromRow(inserted.value)];
        newTooltip := None;
        tooltipText := "";
      }
      isEditOpen := false;
    }

    /** `handleTootipClick`: opens the editor over the clicked tooltip and asks
        for its deletion straight away; only a successful delete removes it from
        the list. `deleteFails` is the database answer. */
    method HandleTooltipClick(t: Tooltip, deleteFails: bool) returns (requests: seq<Request>)
      requires Valid()
      modifies this
      ensures Valid()
      ensures requests == [DeleteTooltip(t.id)]
      ensures isEditOpen && tooltipText == t.text && newTooltip == Some(Point(t.x, t.y))
      ensures tooltips == if deleteFails then old(tooltips) else WithoutId(old(tooltips), t.id)
      ensures photo == old(photo) && imageLoaded == old(imageLoaded) && loading == old(loading)
    {
      isEditOpen := true;
      tooltipText := t.text;
      newTooltip := Some(Point(t.x, t.y));
      requests := [DeleteTooltip(t.id)];
      if !deleteFails {
        tooltips := WithoutId(tooltips, t.id);
      }
    }

    /** `handleImageLoad`. */
    method HandleImageLoad()
      requires Valid()
      modifies this
      ensures Valid()
      ensures imageLoaded
      ensures photo == old(photo) && tooltips == old(tooltips) && newTooltip == old(newTooltip)
      ensures tooltipText == old(tooltipText) && isEditOpen == old(isEditOpen) && loading == old(loading)
    {
      imageLoaded := true;
    }

    /** The Cancel / Delete button: drops the pending tooltip and closes the
        editor, and never touches the list. */
    method Cancel()
      requires Valid()
      modifies this
      ensures Valid()
      ensures newTooltip == None && tooltipText == "" && !isEditOpen
      ensures photo == old(photo) && tooltips == old(tooltips)
      ensures imageLoaded == old(imageLoaded) && loading == old(loading)
    {
      newTooltip := None;
      tooltipText := "";
      isEditOpen := false;
    }
  }

  /** Opening a tooltip for editing and then pressing Delete loses it for good:
      the list ends one shorter, without it, the others in their order. */
  method EditThenCancel(a: PhotoAnnotator, k: int)
    requires a.Valid() && UniqueIds(a.tooltips) && 0 <= k < |a.tooltips|
    modifies a
    ensures a.Valid()
    ensures a.tooltips == old(a.tooltips[..k] + a.tooltips[k + 1..])
    ensures |a.tooltips| == |old(a.tooltips)| - 1
    ensures a.newTooltip == None && !a.isEditOpen
  {
    ghost var before := a.tooltips;
    WithoutListedId(before, k);
    var _ := a.HandleTooltipClick(a.tooltips[k], false);
    a.Cancel();
  }
}
