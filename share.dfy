/** The share link of `ShareButton` and the `isViewMode` test of `App`. */
module Share {
  import opened Text
  import opened Backend

  const ViewSegment := "/view/"

  /** The path the viewer route `/view/:shortId` answers. */
  function ViewPath(shortId: string): string {
    ViewSegment + shortId
  }

  /** `${window.location.origin}/view/${shortId}`. */
  function ShareUrl(origin: string, shortId: string): (url: string)
    ensures StartsWith(url, origin) && EndsWith(url, shortId)
    ensures |url| == |origin| + |ViewSegment| + |shortId|
  {
    origin + ViewSegment + shortId
  }

  /** `window.location.pathname.includes('/view/')`. */
  predicate IsViewMode(pathname: string): (b: bool)
    ensures b <==> exists i :: OccursAt(pathname, ViewSegment, i)
  {
    IncludesIffOccurs(pathname, ViewSegment);
    Includes(pathname, ViewSegment)
  }

  /** Any path holding `/view/` counts, wherever it occurs; a path that only
      ends in `/view` does not. */
  lemma IsViewModeExamples()
    ensures IsViewMode("/view/abc123")
    ensures IsViewMode("/gallery/view/")
    ensures !IsViewMode("/")
    ensures !IsViewMode("/view")
  {
    IncludesIffOccurs("/view/abc123", ViewSegment);
    assert OccursAt("/view/abc123", ViewSegment, 0);
    IncludesIffOccurs("/gallery/view/", ViewSegment);
    assert OccursAt("/gallery/view/", ViewSegment, 8);
    IncludesIffOccurs("/", ViewSegment);
    IncludesIffOccurs("/view", ViewSegment);
  }

  /** Reads the short id back out of a share link: the rest of `url` after
      `origin + "/view/"`, if `url` starts with that. */
  function ShortIdOfUrl(origin: string, url: string): Option<string> {
    var prefix := origin + ViewSegment;
    if StartsWith(url, prefix) then Some(url[|prefix|..]) else None
  }

  /** The share link is the origin followed by the viewer path. */
  lemma ShareUrlIsOriginAndPath(origin: string, shortId: string)
    ensures ShareUrl(origin, shortId) == origin + ViewPath(shortId)
  {
  }

  /** Stripping `origin + "/view/"` from a share link gives back the short id,
      and every link that strips to `id` is the share link of `id`. */
  lemma ShareUrlRoundTrip(origin: string, shortId: string, url: string)
    ensures ShortIdOfUrl(origin, ShareUrl(origin, shortId)) == Some(shortId)
    ensures ShortIdOfUrl(origin, url) == Some(shortId) ==> url == ShareUrl(origin, shortId)
  {
    var prefix := origin + ViewSegment;
    assert ShareUrl(origin, shortId) == prefix + shortId;
    assert (prefix + shortId)[..|prefix|] == prefix;
    assert (prefix + shortId)[|prefix|..] == shortId;
    if ShortIdOfUrl(origin, url) == Some(shortId) {
      assert url == url[..|prefix|] + url[|prefix|..];
    }
  }

  /** Different short ids give different links. */
  lemma ShareUrlInjective(origin: string, a: string, b: string)
    ensures ShareUrl(origin, a) == ShareUrl(origin, b) <==> a == b
  {
    ShareUrlRoundTrip(origin, a, ShareUrl(origin, b));
  }

  /** The viewer path of any short id puts `App` in view mode, and every share
      link holds `/view/`. */
  lemma SharedLinkIsViewMode(origin: string, shortId: string)
    ensures IsViewMode(ViewPath(shortId))
    ensures Includes(ShareUrl(origin, shortId), ViewSegment)
  {
    IncludesBefore(ViewSegment, shortId, ViewSegment);
    IncludesAfter(origin, ViewPath(shortId), ViewSegment);
    ShareUrlIsOriginAndPath(origin, shortId);
  }
}
