/** The content script as it runs: one watcher object whose fields are the
    script's module-level variables and the page's document, with a method
    per function of the script. Each method is specified by the matching
    step function of module Watcher. Between two calls of `OnMutation` the
    site and the user may change the page; a client models that by
    assigning `doc`, as `Run` does with each batch's page. */
module PageWatching {
  import opened Dom
  import opened Watcher

  class PageWatcher {
    var doc: seq<Element>
    var hasRemoved: bool
    var hasResumedVideo: bool
    var oldHref: string
    /** How many times `video.play()` has been called. */
    var plays: nat

    ghost function State(): Watch
      reads this
    {
      Watch(doc, hasRemoved, hasResumedVideo, oldHref, plays)
    }

    ghost predicate Valid()
      reads this
    {
      Inv(State())
    }

    /** The script's start on a page at address `href`: both flags false and
        the current address remembered. */
    constructor (page: seq<Element>, href: string)
      ensures State() == Init(page, href)
      ensures Valid()
    {
      doc, hasRemoved, hasResumedVideo, oldHref, plays := page, false, false, href, 0;
      new;
      InitInv(page, href);
    }

    /** removeShortsAndAds: every shelf and ad slot is removed from the
        document, in place, one at a time. */
    method RemoveShortsAndAds()
      modifies this
      ensures doc == WithoutShelves(old(doc))
      ensures hasRemoved == old(hasRemoved) && hasResumedVideo == old(hasResumedVideo)
      ensures oldHref == old(oldHref) && plays == old(plays)
    {
      ghost var orig := doc;
      ghost var j := 0;
      var i := 0;
      while i < |doc|
        invariant 0 <= i <= |doc| && 0 <= j <= |orig|
        invariant doc[..i] == WithoutShelves(orig[..j])
        invariant doc[i..] == orig[j..]
        invariant hasRemoved == old(hasRemoved) && hasResumedVideo == old(hasResumedVideo)
        invariant oldHref == old(oldHref) && plays == old(plays)
        decreases |doc| - i
      {
        WithoutShelvesSnoc(orig, j);
        assert doc[i] == orig[j] && doc[i + 1..] == orig[j + 1..];
        if IsShelf(doc[i]) {
          RemoveAtCut(doc, i);
          doc := RemoveAt(doc, i);
        } else {
          assert doc[..i + 1] == doc[..i] + [doc[i]];
          i := i + 1;
        }
        j := j + 1;
      }
      assert orig[..j] == orig;
      assert doc[..i] == doc;
    }

    /** removePopup: once the popup has been removed, report false and do
        nothing; otherwise remove the first element of each IDENTIFIERS tag,
        report whether any was found, and record that in `hasRemoved`. */
    method RemovePopup() returns (didRemoveThisTime: bool)
      modifies this
      ensures (State(), didRemoveThisTime) == PopupStep(old(State()))
    {
      if hasRemoved {
        return false;
      }
      didRemoveThisTime := false;
      ghost var orig := doc;
      for k := 0 to |IDENTIFIERS|
        invariant doc == RemoveFirstOfEach(orig, IDENTIFIERS[..k]).0
        invariant didRemoveThisTime == RemoveFirstOfEach(orig, IDENTIFIERS[..k]).1
        invariant hasRemoved == old(hasRemoved) && hasResumedVideo == old(hasResumedVideo)
        invariant oldHref == old(oldHref) && plays == old(plays)
      {
        ghost var prefix := IDENTIFIERS[..k + 1];
        assert prefix[..k] == IDENTIFIERS[..k] && prefix[k] == IDENTIFIERS[k];
        var element := QuerySelector(doc, Tag(IDENTIFIERS[k]));
        if element.Some? {
          doc := RemoveAt(doc, element.value);
          didRemoveThisTime := true;
        }
      }
      assert IDENTIFIERS[..|IDENTIFIERS|] == IDENTIFIERS;
      hasRemoved := didRemoveThisTime;
    }

    /** `video.play()` on the element at position `i`. */
    method Play(i: nat)
      requires i < |doc|
      modifies this
      ensures doc == old(doc)[i := Played(old(doc)[i])] && plays == old(plays) + 1
      ensures hasRemoved == old(hasRemoved) && hasResumedVideo == old(hasResumedVideo)
      ensures oldHref == old(oldHref)
    {
      doc := doc[i := Played(doc[i])];
      plays := plays + 1;
    }

    /** getPrimaryVideo: the position of the first `video.html5-main-video`
        of the page, or None when there is none. */
    method GetPrimaryVideo() returns (video: Option<nat>)
      ensures video.Some? ==> PrimaryVideoAt(doc, video.value)
      ensures video.None? ==> forall i :: 0 <= i < |doc| ==> !Matches(PRIMARY_VIDEO, doc[i])
      ensures video == QuerySelector(doc, PRIMARY_VIDEO)
    {
      video := QuerySelector(doc, PRIMARY_VIDEO);
    }

    /** resumeVideoOnce: unless both flags are set, play the primary video if
        it is paused after some progress, and record that. */
    method ResumeVideoOnce()
      modifies this
      ensures State() == ResumeStep(old(State()))
    {
      if hasRemoved && hasResumedVideo {
        return;
      }
      var video := GetPrimaryVideo();
      if video.Some? && doc[video.value].paused && doc[video.value].currentTime > 0.0 {
        Play(video.value);
        hasResumedVideo := true;
      }
    }

    /** The mutation observer's callback, with the page at address `href`. */
    method OnMutation(href: string)
      requires Valid()
      modifies this
      ensures State() == BatchStep(old(State()), href)
      ensures Valid()
    {
      var didRemove := RemovePopup();
      if didRemove {
        ResumeVideoOnce();
      }
      if !Contains(href, DETAIL_MARKER) {
        RemoveShortsAndAds();
      }
      if href != oldHref {
        hasResumedVideo := false;
        oldHref := href;
      }
      BatchInv(old(State()), href);
    }
  }

  /** A client of the watcher: on a listing page at `home` every ad slot is
      gone after one batch; on a video's page at `video` shelves that the
      site's own scripts add back stay; back on the listing they go again. */
  method ListingVideoListing(home: string, video: string, page: seq<Element>, added: seq<Element>)
    requires !Contains(home, DETAIL_MARKER) && Contains(video, DETAIL_MARKER)
  {
    var ads, reels := SHELF_TAGS[2], SHELF_TAGS[1];
    var w := new PageWatcher(page, home);
    ghost var s0 := w.State();
    w.OnMutation(home);
    BatchShelves(s0, home, ads);
    assert Tagged(w.doc, ads) == [];

    w.doc := w.doc + added;
    ghost var s1 := w.State();
    w.OnMutation(video);
    BatchShelves(s1, video, reels);
    assert Tagged(w.doc, reels) == Tagged(s1.doc, reels);

    ghost var s2 := w.State();
    w.OnMutation(home);
    BatchShelves(s2, home, reels);
    assert Tagged(w.doc, reels) == [];
  }
}
