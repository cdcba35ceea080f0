/** The URL check of the web front end (app.py): a link is taken for a
    YouTube video when it contains a watch-page or a short-link prefix. */
module App {
  import opened Base
  import opened Strings
  import YouTube

  const WatchMarker: string := "youtube.com/watch?v="
  const ShortMarker: string := "youtu.be/"

  /** `validate_youtube_url`: plain substring containment, nothing more. */
  function ValidateYoutubeUrl(url: string): (ok: bool)
    ensures ok <==> (exists i :: OccursAt(url, i, WatchMarker)) || (exists i :: OccursAt(url, i, ShortMarker))
  {
    Contains(url, WatchMarker) || Contains(url, ShortMarker)
  }

  /** Any text around a watch-page marker is accepted, even with nothing
      after "v=". */
  lemma AcceptsWatchUrl(pre: string, post: string)
    ensures ValidateYoutubeUrl(pre + WatchMarker + post)
  {
    assert OccursAt(WatchMarker, 0, WatchMarker);
    OccursInContext(pre, WatchMarker, post, 0, WatchMarker);
  }

  /** Any text around a short-link marker is accepted. */
  lemma AcceptsShortUrl(pre: string, post: string)
    ensures ValidateYoutubeUrl(pre + ShortMarker + post)
  {
    assert OccursAt(ShortMarker, 0, ShortMarker);
    OccursInContext(pre, ShortMarker, post, 0, ShortMarker);
  }

  /** Accepting is kept under adding text on either side. */
  lemma AcceptedInContext(pre: string, url: string, post: string)
    requires ValidateYoutubeUrl(url)
    ensures ValidateYoutubeUrl(pre + url + post)
  {
    if exists i :: OccursAt(url, i, WatchMarker) {
      var i :| OccursAt(url, i, WatchMarker);
      OccursInContext(pre, url, post, i, WatchMarker);
    } else {
      var i :| OccursAt(url, i, ShortMarker);
      OccursInContext(pre, url, post, i, ShortMarker);
    }
  }

  /** A link with no "y" holds neither marker and is refused. */
  lemma RefusesWithoutMarker(url: string)
    requires forall i :: 0 <= i < |url| ==> url[i] != 'y'
    ensures !ValidateYoutubeUrl(url)
  {
    AbsentCharNoOccurrence(url, WatchMarker, 0);
    AbsentCharNoOccurrence(url, ShortMarker, 0);
  }

  /** A short link passes the check but has no "v=", so the id extraction
      on it raises IndexError. */
  lemma ShortLinkHasNoVideoId(id: string)
    requires forall i :: 0 <= i < |id| ==> id[i] != '='
    ensures ValidateYoutubeUrl("https://" + ShortMarker + id)
    ensures YouTube.VideoId("https://" + ShortMarker + id) == Err(IndexError)
  {
    AcceptsShortUrl("https://", id);
    var url := "https://" + ShortMarker + id;
    assert forall i :: 0 <= i < |url| ==> url[i] != '=' by {
      assert forall i :: 0 <= i < |"https://" + ShortMarker| ==> ("https://" + ShortMarker)[i] != '=';
    }
    AbsentCharNoOccurrence(url, "v=", 1);
  }

  /** A watch link with nothing after "v=" passes the check and yields an
      empty id. */
  lemma EmptyWatchIdAccepted()
    ensures ValidateYoutubeUrl(WatchMarker)
    ensures YouTube.VideoId(WatchMarker) == Ok("")
  {
    AcceptsWatchUrl("", "");
    assert "" + WatchMarker + "" == WatchMarker;
    var pre := "youtube.com/watch?";
    WatchPrefixFree();
    AbsentCharNoOccurrence("", "v=", 1);
    assert WatchMarker == pre + "v=" + "" + "";
    YouTube.VideoIdOf(pre, "", "");
  }

  /** The watch marker holds its "v=" only at its end. */
  lemma WatchPrefixFree()
    ensures !Contains("youtube.com/watch?", "v=")
  {
    AbsentCharNoOccurrence("youtube.com/watch?", "v=", 1);
  }
}
