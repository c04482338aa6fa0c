/** The viewer: the state of the `ViewMode` component and its one-time load by
    short id. Its markers have no click handler, so the load is the only step
    that changes the state. */
module ViewMode {
  import opened Types
  import opened Backend

  class Viewer {
    var photo: Option<ShownPhoto>
    var tooltips: seq<Tooltip>

    constructor ()
      ensures photo == None && tooltips == []
    {
      photo := None;
      tooltips := [];
    }

    /** The effect on `shortId` and its `fetchPhoto`. `shortId` is the route
        parameter, `photoReply` the answer to the single-photo lookup and
        `tooltipsReply` the answer to the tooltip lookup. */
    method FetchPhoto(shortId: Option<string>, photoReply: Reply<Photo>,
                      tooltipsReply: Reply<seq<TooltipRow>>)
      returns (requests: seq<Request>)
      modifies this
      ensures shortId.None? || shortId.value == "" ==>
        requests == [] && photo == old(photo) && tooltips == old(tooltips)
      ensures shortId.Some? && shortId.value != "" && photoReply.Failed? ==>
        requests == [SelectPhoto(shortId.value)] && photo == old(photo) && tooltips == old(tooltips)
      ensures shortId.Some? && shortId.value != "" && photoReply.Ok? ==>
        && requests == [SelectPhoto(shortId.value), SelectTooltips(photoReply.value.id)]
        && photo == Some(ShownPhoto(photoReply.value, photoReply.value.imageUrl))
        && tooltips == (if tooltipsReply.Ok? then FromRows(tooltipsReply.value) else old(tooltips))
    {
      requests := [];
      if shortId.None? || shortId.value == "" {
        return;
      }
      requests := [SelectPhoto(shortId.value)];
      if photoReply.Failed? {
        return;
      }
      var row := photoReply.value;
      photo := Some(ShownPhoto(row, row.imageUrl));
      requests := requests + [SelectTooltips(row.id)];
      if tooltipsReply.Failed? {
        return;
      }
      tooltips := FromRows(tooltipsReply.value);
    }
  }

  /** A fresh viewer whose photo lookup fails shows nothing and looks up no tooltips. */
  method FailedPhotoLookup(shortId: string, tooltipsReply: Reply<seq<TooltipRow>>)
    returns (v: Viewer, requests: seq<Request>)
    requires shortId != ""
    ensures fresh(v)
    ensures v.photo == None && v.tooltips == []
    ensures forall r :: r in requests ==> !r.SelectTooltips?
  {
    v := new Viewer();
    requests := v.FetchPhoto(Some(shortId), Failed, tooltipsReply);
  }

  /** A fresh viewer whose tooltip lookup fails shows the photo and no tooltips. */
  method FailedTooltipLookup(shortId: string, row: Photo)
    returns (v: Viewer, requests: seq<Request>)
    requires shortId != ""
    ensures fresh(v)
    ensures v.photo == Some(ShownPhoto(row, row.imageUrl)) && v.tooltips == []
  {
    v := new Viewer();
    requests := v.FetchPhoto(Some(shortId), Ok(row), Failed);
  }
}
