/** The page watcher's state machine, as values: the state a content script
    keeps between mutation batches, one function per step of a batch, the
    batch itself, and a run over a sequence of batches. The class in
    page_watcher.dfy updates the same state in place and is specified by
    these functions. */
module Watcher {
  import opened Dom

  /** Tags of the short-form video shelves and the ad slots. */
  const SHELF_TAGS: seq<string> := ["ytd-rich-shelf-renderer", "ytd-reel-shelf-renderer", "ytd-ad-slot-renderer"]

  /** Tags of the two elements that make up the blocking popup. */
  const IDENTIFIERS: seq<string> := ["tp-yt-iron-overlay-backdrop", "ytd-popup-container"]

  /** The selector of the page's primary video. */
  const PRIMARY_VIDEO: Selector := TagWithClass("video", "html5-main-video")

  /** The address fragment that marks a video's own page. */
  const DETAIL_MARKER: string := "watch?v="

  /** The only host on which the watcher is installed. */
  const HOSTNAME: string := "www.youtube.com"

  /** What the script keeps between batches, plus the document it works on.
      `plays` counts the calls of `video.play()` made so far. */
  datatype Watch = Watch(doc: seq<Element>, hasRemoved: bool, hasResumedVideo: bool, oldHref: string, plays: nat)

  /** The state when the script starts on a page at address `href`. */
  function Init(doc: seq<Element>, href: string): Watch
  {
    Watch(doc, false, false, href, 0)
  }

  /** The activation guard: an exact comparison with the host name. */
  predicate Activates(hostname: string)
  {
    hostname == HOSTNAME
  }

  /** Neither a subdomain of the site nor its bare domain activates the
      watcher, and of the hosts directly under youtube.com only `www` does. */
  lemma OnlyExactHost(sub: string)
    requires sub != ""
    ensures !Activates(sub + "." + HOSTNAME)
    ensures !Activates("youtube.com")
    ensures Activates(sub + ".youtube.com") <==> sub == "www"
  {
    assert |sub + "." + HOSTNAME| > |HOSTNAME|;
    if Activates(sub + ".youtube.com") {
      assert (sub + ".youtube.com")[..|sub|] == sub;
    }
  }

  // ----- removeShortsAndAds -----

  predicate IsShelf(e: Element)
  {
    e.tag in SHELF_TAGS
  }

  /** The document once every shelf and ad slot is gone. */
  function WithoutShelves(doc: seq<Element>): seq<Element>
  {
    Excluding(doc, SHELF_TAGS)
  }

  /** Extending the scanned prefix by one element adds that element unless it
      is a shelf or an ad slot. */
  lemma WithoutShelvesSnoc(doc: seq<Element>, j: nat)
    requires j < |doc|
    ensures WithoutShelves(doc[..j + 1]) == WithoutShelves(doc[..j]) + (if IsShelf(doc[j]) then [] else [doc[j]])
  {
    assert doc[..j + 1] == doc[..j] + [doc[j]];
    ExcludingConcat(doc[..j], [doc[j]], SHELF_TAGS);
  }

  /** After removal no shelf or ad slot is left; every other element is kept,
      as often as it occurred; elements of other tags keep their relative
      order; a document without shelves is untouched; and removal splits over
      any cut of the document, so the survivors stay in document order. */
  lemma WithoutShelvesSpec(doc: seq<Element>, a: seq<Element>, b: seq<Element>)
    ensures forall i :: 0 <= i < |WithoutShelves(doc)| ==> !IsShelf(WithoutShelves(doc)[i])
    ensures forall e :: !IsShelf(e) ==> multiset(WithoutShelves(doc))[e] == multiset(doc)[e]
    ensures forall t :: t !in SHELF_TAGS ==> Tagged(WithoutShelves(doc), t) == Tagged(doc, t)
    ensures (forall i :: 0 <= i < |doc| ==> !IsShelf(doc[i])) ==> WithoutShelves(doc) == doc
    ensures WithoutShelves(a + b) == WithoutShelves(a) + WithoutShelves(b)
    ensures WithoutShelves(WithoutShelves(doc)) == WithoutShelves(doc)
  {
    ExcludingRemovesAll(doc, SHELF_TAGS);
    ExcludingCounts(doc, SHELF_TAGS);
    forall t | t !in SHELF_TAGS
      ensures Tagged(WithoutShelves(doc), t) == Tagged(doc, t)
    {
      TaggedExcluding(doc, SHELF_TAGS, t);
    }
    if forall i :: 0 <= i < |doc| ==> !IsShelf(doc[i]) {
      ExcludingNothing(doc, SHELF_TAGS);
    }
    ExcludingConcat(a, b, SHELF_TAGS);
    ExcludingIdempotent(doc, SHELF_TAGS);
  }

  // ----- removePopup -----

  /** The loop of removePopup over `tags`: for each tag in turn, remove the
      first element that carries it, and say whether anything was removed. */
  function RemoveFirstOfEach(doc: seq<Element>, tags: seq<string>): (seq<Element>, bool)
    decreases |tags|
  {
    if tags == [] then (doc, false)
    else
      var (d, removed) := RemoveFirstOfEach(doc, tags[..|tags| - 1]);
      match QuerySelector(d, Tag(tags[|tags| - 1]))
      case None => (d, removed)
      case Some(i) => (RemoveAt(d, i), true)
  }

  predicate Distinct(tags: seq<string>)
  {
    forall a, b :: 0 <= a < b < |tags| ==> tags[a] != tags[b]
  }

  /** The last of `tags` is not among the others. */
  lemma DistinctLast(tags: seq<string>)
    requires Distinct(tags) && tags != []
    ensures tags[|tags| - 1] !in tags[..|tags| - 1]
    ensures Distinct(tags[..|tags| - 1])
  {
    var n := |tags| - 1;
    forall k | 0 <= k < n ensures tags[..n][k] != tags[n] {
      assert tags[k] != tags[n];
    }
  }

  /** For distinct tags, the first element carrying each listed tag is gone
      and the rest of that tag's elements stay in order; elements of an
      unlisted tag are untouched. */
  lemma {:induction false} RemoveFirstOfEachTagged(doc: seq<Element>, tags: seq<string>, u: string)
    requires Distinct(tags)
    ensures Tagged(RemoveFirstOfEach(doc, tags).0, u) == if u in tags then DropFirst(Tagged(doc, u)) else Tagged(doc, u)
    decreases |tags|
  {
    if tags != [] {
      var n := |tags| - 1;
      var pre, last := tags[..n], tags[n];
      assert tags == pre + [last];
      DistinctLast(tags);
      RemoveFirstOfEachTagged(doc, pre, u);
      var d := RemoveFirstOfEach(doc, pre).0;
      match QuerySelector(d, Tag(last))
      case None =>
        if u == last {
          TaggedEmpty(d, last);
          RemoveFirstOfEachTagged(doc, pre, last);
          TaggedEmpty(doc, last);
        }
      case Some(i) =>
        if u == last {
          RemoveAtFirstTagged(d, i, last);
        } else {
          RemoveAtOtherTag(d, i, u);
        }
    }
  }

  /** The document outside any `fence` of tags containing the listed ones
      is untouched. */
  lemma {:induction false} RemoveFirstOfEachExcluding(doc: seq<Element>, tags: seq<string>, fence: seq<string>)
    requires forall k :: 0 <= k < |tags| ==> tags[k] in fence
    ensures Excluding(RemoveFirstOfEach(doc, tags).0, fence) == Excluding(doc, fence)
    decreases |tags|
  {
    if tags != [] {
      var n := |tags| - 1;
      var pre := tags[..n];
      assert forall k :: 0 <= k < |pre| ==> pre[k] == tags[k];
      RemoveFirstOfEachExcluding(doc, pre, fence);
      var d := RemoveFirstOfEach(doc, pre).0;
      var q := QuerySelector(d, Tag(tags[n]));
      if q.Some? {
        assert d[q.value].tag == tags[n];
        RemoveAtExcluded(d, q.value, fence);
      }
    }
  }

  /** For distinct tags, something is removed iff some listed tag is present. */
  lemma {:induction false} RemoveFirstOfEachRemoved(doc: seq<Element>, tags: seq<string>)
    requires Distinct(tags)
    ensures RemoveFirstOfEach(doc, tags).1 <==> exists t :: t in tags && Present(doc, t)
    decreases |tags|
  {
    if tags != [] {
      var n := |tags| - 1;
      var pre, last := tags[..n], tags[n];
      assert tags == pre + [last];
      DistinctLast(tags);
      RemoveFirstOfEachRemoved(doc, pre);
      var d := RemoveFirstOfEach(doc, pre).0;
      RemoveFirstOfEachTagged(doc, pre, last);
      TaggedEmpty(d, last);
      TaggedEmpty(doc, last);
      assert Present(d, last) <==> Present(doc, last);
      if QuerySelector(d, Tag(last)).Some? {
        assert Present(d, last) by {
          assert Matches(Tag(last), d[QuerySelector(d, Tag(last)).value]);
        }
      }
    }
  }

  /** For distinct tags the loop drops exactly the first element of each
      listed tag, wherever it stands, and every other element keeps its
      place in document order. */
  lemma {:induction false} RemoveFirstOfEachDrops(doc: seq<Element>, tags: seq<string>)
    requires Distinct(tags)
    ensures RemoveFirstOfEach(doc, tags).0 == DropFirstOf(doc, set t | t in tags)
    decreases |tags|
  {
    if tags == [] {
      DropFirstOfNothing(doc);
      assert (set t | t in tags) == {};
    } else {
      var n := |tags| - 1;
      var pre, last := tags[..n], tags[n];
      assert tags == pre + [last];
      DistinctLast(tags);
      RemoveFirstOfEachDrops(doc, pre);
      assert (set t | t in tags) == (set t | t in pre) + {last};
      RemoveFirstDropFirstOf(doc, (set t | t in pre), last);
      var d := RemoveFirstOfEach(doc, pre).0;
      assert RemoveFirstOfEach(doc, tags).0 == RemoveFirst(d, last);
    }
  }

  /** removePopup: a no-op returning false once the popup has been removed;
      otherwise one pass over IDENTIFIERS whose outcome is also recorded in
      `hasRemoved`. */
  function PopupStep(s: Watch): (Watch, bool)
  {
    if s.hasRemoved then (s, false)
    else
      var (d, removed) := RemoveFirstOfEach(s.doc, IDENTIFIERS);
      (s.(doc := d, hasRemoved := removed), removed)
  }

  /** Some popup element is on the page. */
  predicate PopupPresent(doc: seq<Element>)
  {
    Present(doc, IDENTIFIERS[0]) || Present(doc, IDENTIFIERS[1])
  }

  /** Once removed, removePopup reports false and changes nothing. Before,
      it reports true iff some popup element is present and stores that in
      `hasRemoved`; the first backdrop and the first popup container are the
      elements removed and every other element keeps its place; the other
      fields are left alone. */
  lemma PopupStepSpec(s: Watch)
    ensures s.hasRemoved ==> PopupStep(s) == (s, false)
    ensures !s.hasRemoved ==>
      var (r, removed) := PopupStep(s);
      && (removed <==> PopupPresent(s.doc))
      && r.hasRemoved == removed
      && r.hasResumedVideo == s.hasResumedVideo && r.oldHref == s.oldHref && r.plays == s.plays
      && (forall t :: Tagged(r.doc, t) == if t in IDENTIFIERS then DropFirst(Tagged(s.doc, t)) else Tagged(s.doc, t))
      && Excluding(r.doc, IDENTIFIERS) == Excluding(s.doc, IDENTIFIERS)
      && r.doc == DropFirstOf(s.doc, set t | t in IDENTIFIERS)
  {
    if !s.hasRemoved {
      assert Distinct(IDENTIFIERS);
      RemoveFirstOfEachRemoved(s.doc, IDENTIFIERS);
      RemoveFirstOfEachExcluding(s.doc, IDENTIFIERS, IDENTIFIERS);
      RemoveFirstOfEachDrops(s.doc, IDENTIFIERS);
      forall t ensures Tagged(PopupStep(s).0.doc, t) == if t in IDENTIFIERS then DropFirst(Tagged(s.doc, t)) else Tagged(s.doc, t) {
        RemoveFirstOfEachTagged(s.doc, IDENTIFIERS, t);
      }
      assert (exists t :: t in IDENTIFIERS && Present(s.doc, t)) <==> PopupPresent(s.doc);
    }
  }

  // ----- resumeVideoOnce -----

  /** Position `i` holds the primary video: the first element in document
      order matching `video.html5-main-video`. */
  predicate PrimaryVideoAt(doc: seq<Element>, i: int)
  {
    && 0 <= i < |doc|
    && Matches(PRIMARY_VIDEO, doc[i])
    && forall j :: 0 <= j < i ==> !Matches(PRIMARY_VIDEO, doc[j])
  }

  /** `video.play()`: the media element is no longer paused. */
  function Played(e: Element): Element
  {
    e.(paused := false)
  }

  /** resumeVideoOnce. */
  function ResumeStep(s: Watch): Watch
  {
    if s.hasRemoved && s.hasResumedVideo then s
    else match QuerySelector(s.doc, PRIMARY_VIDEO)
      case None => s
      case Some(i) =>
        if s.doc[i].paused && s.doc[i].currentTime > 0.0 then
          s.(doc := s.doc[i := Played(s.doc[i])], plays := s.plays + 1, hasResumedVideo := true)
        else s
  }

  /** The condition under which resumeVideoOnce plays the video: not both
      flags set, and a primary video that is paused after some progress. */
  ghost predicate WouldResume(s: Watch)
  {
    !(s.hasRemoved && s.hasResumedVideo) && VideoWaiting(s.doc)
  }

  /** The page's primary video is paused after some progress. */
  ghost predicate VideoWaiting(doc: seq<Element>)
  {
    exists i :: PrimaryVideoAt(doc, i) && doc[i].paused && doc[i].currentTime > 0.0
  }

  /** resumeVideoOnce calls play exactly when WouldResume holds, and then
      only on the primary video, and records the resumption; in every other
      case (both flags set, no video, a playing video, or a video at time 0)
      nothing at all changes. `hasRemoved` and the address never change. */
  lemma ResumeStepSpec(s: Watch)
    ensures ResumeStep(s).plays == if WouldResume(s) then s.plays + 1 else s.plays
    ensures ResumeStep(s).hasResumedVideo == (s.hasResumedVideo || WouldResume(s))
    ensures ResumeStep(s).hasRemoved == s.hasRemoved && ResumeStep(s).oldHref == s.oldHref
    ensures !WouldResume(s) ==> ResumeStep(s) == s
    ensures WouldResume(s) ==> exists i :: PrimaryVideoAt(s.doc, i) && ResumeStep(s).doc == s.doc[i := Played(s.doc[i])]
  {
    if WouldResume(s) {
      var i :| PrimaryVideoAt(s.doc, i) && s.doc[i].paused && s.doc[i].currentTime > 0.0;
      QuerySelectorFirst(s.doc, PRIMARY_VIDEO, i);
    } else {
      var q := QuerySelector(s.doc, PRIMARY_VIDEO);
      if q.Some? {
        assert PrimaryVideoAt(s.doc, q.value);
      }
    }
  }

  /** resumeVideoOnce touches no element except the video. */
  lemma ResumeKeepsTagged(s: Watch, t: string)
    requires t != PRIMARY_VIDEO.name
    ensures Tagged(ResumeStep(s).doc, t) == Tagged(s.doc, t)
  {
    ResumeStepSpec(s);
    if WouldResume(s) {
      var i :| PrimaryVideoAt(s.doc, i) && ResumeStep(s).doc == s.doc[i := Played(s.doc[i])];
      TaggedUpdate(s.doc, i, Played(s.doc[i]), t);
    }
  }

  // ----- the mutation callback -----

  /** The callback's first statement: removePopup, and resumeVideoOnce when
      it reports a removal. */
  function PopupPhase(s: Watch): Watch
  {
    if PopupStep(s).1 then ResumeStep(PopupStep(s).0) else PopupStep(s).0
  }

  /** The shelves are stripped unless the address is a video's own page. */
  function ShelfPhase(s: Watch, href: string): Watch
  {
    if !Contains(href, DETAIL_MARKER) then s.(doc := WithoutShelves(s.doc)) else s
  }

  /** A new address clears `hasResumedVideo` and is remembered. */
  function NavigationPhase(s: Watch, href: string): Watch
  {
    if href != s.oldHref then s.(hasResumedVideo := false, oldHref := href) else s
  }

  /** One run of the mutation callback with the page at address `href`. */
  function BatchStep(s: Watch, href: string): Watch
  {
    NavigationPhase(ShelfPhase(PopupPhase(s), href), href)
  }

  /** What one mutation batch meets: the page as the site and the user have
      left it since the previous batch (shelves added back, a popup inserted
      late, the video paused or played), and the address at that moment. */
  datatype Batch = Batch(page: seq<Element>, href: string)

  /** The callback run once per batch, in order, each time on that batch's
      page; the script's variables carry over from batch to batch. */
  function Run(s: Watch, batches: seq<Batch>): Watch
    decreases |batches|
  {
    if batches == [] then s
    else Run(BatchStep(s.(doc := batches[0].page), batches[0].href), batches[1..])
  }

  /** What holds between batches: a resumption is only recorded after the
      popup was removed, and play has been called at most once, and only
      after the popup was removed. */
  predicate Inv(s: Watch)
  {
    && (s.hasResumedVideo ==> s.hasRemoved)
    && s.plays <= (if s.hasRemoved then 1 else 0)
  }

  lemma InitInv(doc: seq<Element>, href: string)
    ensures Inv(Init(doc, href))
  {
  }

  /** Every batch keeps the invariant. */
  lemma BatchInv(s: Watch, href: string)
    requires Inv(s)
    ensures Inv(BatchStep(s, href))
  {
    PopupStepSpec(s);
    if PopupStep(s).1 {
      ResumeStepSpec(PopupStep(s).0);
    }
  }

  /** The flags and the address across one batch: `hasRemoved` is set once
      a popup element is found and is never cleared, navigation included;
      on a new address `hasResumedVideo` is cleared and the address recorded;
      on the same address the address stays and `hasResumedVideo` is set
      exactly when it was already set or play was called in this batch; play
      is called at most once per batch, and only in the batch that removed
      the popup. */
  lemma BatchFlags(s: Watch, href: string)
    ensures BatchStep(s, href).hasRemoved == (s.hasRemoved || PopupPresent(s.doc))
    ensures href != s.oldHref ==> !BatchStep(s, href).hasResumedVideo && BatchStep(s, href).oldHref == href
    ensures href == s.oldHref ==> BatchStep(s, href).oldHref == s.oldHref
    ensures href == s.oldHref ==>
      BatchStep(s, href).hasResumedVideo == (s.hasResumedVideo || BatchStep(s, href).plays == s.plays + 1)
    ensures BatchStep(s, href).plays == s.plays || BatchStep(s, href).plays == s.plays + 1
    ensures BatchStep(s, href).plays == s.plays + 1 ==> !s.hasRemoved && PopupPresent(s.doc)
  {
    PopupStepSpec(s);
    if PopupStep(s).1 {
      ResumeStepSpec(PopupStep(s).0);
    }
  }

  /** Shelves and ad slots in a batch: on a video's own page they are left as
      they are; anywhere else every one of them is removed. */
  lemma BatchShelves(s: Watch, href: string, t: string)
    requires t in SHELF_TAGS
    ensures Contains(href, DETAIL_MARKER) ==> Tagged(BatchStep(s, href).doc, t) == Tagged(s.doc, t)
    ensures !Contains(href, DETAIL_MARKER) ==> Tagged(BatchStep(s, href).doc, t) == []
  {
    PopupPhaseKeepsTagged(s, t);
    ShelfPhaseTagged(PopupPhase(s), href, t);
  }

  /** The shelf tags are neither popup tags nor the video's tag. */
  lemma ShelfTagsApart(t: string)
    requires t in SHELF_TAGS
    ensures t !in IDENTIFIERS && t != PRIMARY_VIDEO.name
  {
  }

  lemma PopupPhaseKeepsTagged(s: Watch, t: string)
    requires t in SHELF_TAGS
    ensures Tagged(PopupPhase(s).doc, t) == Tagged(s.doc, t)
  {
    ShelfTagsApart(t);
    PopupKeepsTagged(s, t);
    if PopupStep(s).1 {
      ResumeKeepsTagged(PopupStep(s).0, t);
    }
  }

  lemma ShelfPhaseTagged(s: Watch, href: string, t: string)
    requires t in SHELF_TAGS
    ensures Contains(href, DETAIL_MARKER) ==> Tagged(ShelfPhase(s, href).doc, t) == Tagged(s.doc, t)
    ensures !Contains(href, DETAIL_MARKER) ==> Tagged(ShelfPhase(s, href).doc, t) == []
  {
    TaggedExcluding(s.doc, SHELF_TAGS, t);
  }

  /** removePopup touches no shelf or ad element. */
  lemma PopupKeepsTagged(s: Watch, t: string)
    requires t in SHELF_TAGS
    ensures Tagged(PopupStep(s).0.doc, t) == Tagged(s.doc, t)
  {
    ShelfTagsApart(t);
    PopupStepSpec(s);
  }

  /** removePopup leaves the video elements as they were. */
  lemma PopupKeepsVideos(s: Watch)
    ensures Tagged(PopupStep(s).0.doc, PRIMARY_VIDEO.name) == Tagged(s.doc, PRIMARY_VIDEO.name)
  {
    if !s.hasRemoved {
      assert PRIMARY_VIDEO.name !in IDENTIFIERS;
      RemoveFirstOfEachTagged(s.doc, IDENTIFIERS, PRIMARY_VIDEO.name);
    }
  }

  /** Before the popup was removed, the batch that meets it plays a waiting
      video. */
  lemma BatchResumes(s: Watch, page: seq<Element>, href: string)
    requires Inv(s) && !s.hasRemoved
    requires PopupPresent(page) && VideoWaiting(page)
    ensures BatchStep(s.(doc := page), href).plays == s.plays + 1
    ensures BatchStep(s.(doc := page), href).hasRemoved
  {
    var p := s.(doc := page);
    PopupStepFinds(p);
    PopupKeepsWaiting(p);
    ResumeStepSpec(PopupStep(p).0);
    BatchKeepsPopupPhase(p, href);
  }

  /** removePopup keeps a waiting primary video waiting, as the same element. */
  lemma PopupKeepsWaiting(s: Watch)
    requires VideoWaiting(s.doc)
    ensures VideoWaiting(PopupStep(s).0.doc)
  {
    if !s.hasRemoved {
      var tags := set t | t in IDENTIFIERS;
      assert Distinct(IDENTIFIERS);
      RemoveFirstOfEachDrops(s.doc, IDENTIFIERS);
      assert PRIMARY_VIDEO.name !in tags;
      var i :| PrimaryVideoAt(s.doc, i) && s.doc[i].paused && s.doc[i].currentTime > 0.0;
      DropFirstOfKeepsPrimary(s.doc, tags, i);
    }
  }

  /** Dropping elements of tags other than `video` keeps the primary video
      the primary video. */
  lemma {:induction false} DropFirstOfKeepsPrimary(doc: seq<Element>, tags: set<string>, i: nat)
    requires PRIMARY_VIDEO.name !in tags && PrimaryVideoAt(doc, i)
    ensures exists j :: PrimaryVideoAt(DropFirstOf(doc, tags), j) && DropFirstOf(doc, tags)[j] == doc[i]
  {
    if i == 0 {
      assert PrimaryVideoAt(DropFirstOf(doc, tags), 0);
    } else {
      var rest := if doc[0].tag in tags then tags - {doc[0].tag} else tags;
      assert PrimaryVideoAt(doc[1..], i - 1) by {
        forall j | 0 <= j < i - 1 ensures !Matches(PRIMARY_VIDEO, doc[1..][j]) {
          assert doc[1..][j] == doc[j + 1];
        }
      }
      DropFirstOfKeepsPrimary(doc[1..], rest, i - 1);
      var d := DropFirstOf(doc[1..], rest);
      var j :| PrimaryVideoAt(d, j) && d[j] == doc[i - 1 + 1];
      if doc[0].tag !in tags {
        assert DropFirstOf(doc, tags) == [doc[0]] + d;
        assert !Matches(PRIMARY_VIDEO, doc[0]);
        assert ([doc[0]] + d)[j + 1] == doc[i];
        assert PrimaryVideoAt([doc[0]] + d, j + 1);
      } else {
        assert DropFirstOf(doc, tags) == d;
      }
    }
  }

  /** Before the popup appears, removePopup returns false and leaves the
      whole state, the document included, as it was. */
  lemma PopupStepNoPopup(s: Watch)
    requires !s.hasRemoved && !PopupPresent(s.doc)
    ensures PopupStep(s) == (s, false)
  {
    assert Distinct(IDENTIFIERS);
    var tags := set t | t in IDENTIFIERS;
    assert forall t :: t in IDENTIFIERS ==> t == IDENTIFIERS[0] || t == IDENTIFIERS[1];
    RemoveFirstOfEachRemoved(s.doc, IDENTIFIERS);
    forall k | 0 <= k < |s.doc| ensures s.doc[k].tag !in tags {
      assert s.doc[k].tag != IDENTIFIERS[0] && s.doc[k].tag != IDENTIFIERS[1];
    }
    RemoveFirstOfEachDrops(s.doc, IDENTIFIERS);
    DropFirstOfAbsent(s.doc, tags);
  }

  /** removePopup finds a popup that is present. */
  lemma PopupStepFinds(s: Watch)
    requires !s.hasRemoved && PopupPresent(s.doc)
    ensures PopupStep(s).1 && PopupStep(s).0.hasRemoved && PopupStep(s).0.hasResumedVideo == s.hasResumedVideo
  {
    assert Distinct(IDENTIFIERS);
    RemoveFirstOfEachRemoved(s.doc, IDENTIFIERS);
    if Present(s.doc, IDENTIFIERS[0]) {
      assert IDENTIFIERS[0] in IDENTIFIERS;
    } else {
      assert IDENTIFIERS[1] in IDENTIFIERS;
    }
  }

  /** The shelf and navigation phases call no play and keep `hasRemoved`. */
  lemma BatchKeepsPopupPhase(s: Watch, href: string)
    ensures BatchStep(s, href).plays == PopupPhase(s).plays
    ensures BatchStep(s, href).hasRemoved == PopupPhase(s).hasRemoved
  {
  }

  // ----- over the page's lifetime -----

  /** `hasRemoved` never goes from true to false. */
  lemma {:induction false} RunKeepsRemoved(s: Watch, batches: seq<Batch>)
    requires s.hasRemoved
    ensures Run(s, batches).hasRemoved
    decreases |batches|
  {
    if batches != [] {
      var b := batches[0];
      BatchFlags(s.(doc := b.page), b.href);
      RunKeepsRemoved(BatchStep(s.(doc := b.page), b.href), batches[1..]);
    }
  }

  /** Once the popup is removed, the video is never played again, whatever
      later pages show (a new popup, the video paused again) and wherever the
      user navigates. */
  lemma {:induction false} RunNoPlayAfterRemoval(s: Watch, batches: seq<Batch>)
    requires s.hasRemoved
    ensures Run(s, batches).plays == s.plays
    decreases |batches|
  {
    if batches != [] {
      var b := batches[0];
      BatchFlags(s.(doc := b.page), b.href);
      RunNoPlayAfterRemoval(BatchStep(s.(doc := b.page), b.href), batches[1..]);
    }
  }

  lemma {:induction false} RunInv(s: Watch, batches: seq<Batch>)
    requires Inv(s)
    ensures Inv(Run(s, batches))
    decreases |batches|
  {
    if batches != [] {
      var b := batches[0];
      BatchInv(s.(doc := b.page), b.href);
      RunInv(BatchStep(s.(doc := b.page), b.href), batches[1..]);
    }
  }

  /** Before any popup has been seen, the first batch whose page shows one
      plays a waiting video: the run up to that batch has called play once. */
  lemma {:induction false} RunResumesAtFirstPopup(s: Watch, batches: seq<Batch>, k: nat)
    requires Inv(s) && !s.hasRemoved
    requires k < |batches|
    requires forall j :: 0 <= j < k ==> !PopupPresent(batches[j].page)
    requires PopupPresent(batches[k].page) && VideoWaiting(batches[k].page)
    ensures Run(s, batches[..k + 1]).plays == s.plays + 1
    ensures Run(s, batches[..k + 1]).hasRemoved
    decreases k
  {
    var b := batches[0];
    var s1 := BatchStep(s.(doc := b.page), b.href);
    assert batches[..k + 1][0] == b && batches[..k + 1][1..] == batches[1..][..k];
    if k == 0 {
      BatchResumes(s, b.page, b.href);
    } else {
      BatchFlags(s.(doc := b.page), b.href);
      BatchInv(s.(doc := b.page), b.href);
      assert forall j :: 0 <= j < k - 1 ==> batches[1..][j] == batches[j + 1];
      RunResumesAtFirstPopup(s1, batches[1..], k - 1);
    }
  }

  /** The page's lifetime: on the target host the callback runs once per
      batch; on any other host it is never installed. */
  function Lifetime(hostname: string, doc: seq<Element>, href: string, batches: seq<Batch>): Watch
  {
    if Activates(hostname) then Run(Init(doc, href), batches) else Init(doc, href)
  }

  /** Over a page's whole lifetime play is called at most once and a
      recorded resumption implies the popup was removed. The last clause is
      the hostname guard's own definition read back: on any other host the
      watcher neither removes nor plays anything. */
  lemma LifetimeSpec(hostname: string, doc: seq<Element>, href: string, batches: seq<Batch>)
    ensures Lifetime(hostname, doc, href, batches).plays <= 1
    ensures Inv(Lifetime(hostname, doc, href, batches))
    ensures !Activates(hostname) ==>
      var w := Lifetime(hostname, doc, href, batches);
      w.doc == doc && w.plays == 0 && !w.hasRemoved
  {
    InitInv(doc, href);
    RunInv(Init(doc, href), batches);
  }
}
