# tp-popup-remover, modelled in Dafny

The repository is a browser content script for www.youtube.com. On every
batch of DOM mutations it does three things in a fixed order:

1. It removes the blocking popup once: the first `tp-yt-iron-overlay-backdrop`
   element and the first `ytd-popup-container` element.
2. If it has just removed the popup, it resumes the primary video. It does
   this only when that video is paused after some progress.
3. Unless the page is a video's own page (the address contains `watch?v=`),
   it strips the short-form shelves and the ad slots. Then it notices a new
   address and clears the "video resumed" flag.

The script's state is two flags, `hasRemoved` and `hasResumedVideo`, and the
last address seen, `oldHref`.

The project has three files:

- `dom.dfy` (module `Dom`) is the abstract page. A document is a sequence of
  elements in document order. Each element has a tag, its classes and the
  media state a video carries (`paused`, `currentTime` as a `real`). The file
  also holds the DOM calls the script makes: `querySelector` as
  `QuerySelector` and `element.remove()` as `RemoveAt`. It has JavaScript's
  `String.prototype.includes` as `Contains`. It has the filters the
  properties are stated with: `Excluding` (drop all elements of some tags),
  `Tagged` (keep the elements of one tag) and `DropFirstOf` (drop the first
  element of each of some tags in one pass, everything else in place).
- `watcher.dfy` (module `Watcher`) is the state machine as values. `Watch`
  holds the document, the two flags, `oldHref` and `plays`, a counter of
  `video.play()` calls. There is one function per step: `PopupStep`
  (removePopup), `ResumeStep` (resumeVideoOnce), `WithoutShelves`
  (removeShortsAndAds), `BatchStep` (the observer callback, built from
  `PopupPhase`, `ShelfPhase` and `NavigationPhase`), `Run` (a sequence
  of batches) and `Lifetime` (the hostname guard and then a run). A `Batch`
  is the page as the site and the user left it since the previous batch,
  with the address at that moment. So a run covers shelves added back, a
  popup inserted late and a video paused again. The lemmas state what the
  script promises about these functions.
- `page_watcher.dfy` (module `PageWatching`) is the script as it runs: class
  `PageWatcher` has the script's variables and the document as mutable
  fields. It has one method per function of the script: `GetPrimaryVideo`,
  `RemovePopup`, `ResumeVideoOnce` (which calls `Play` for `video.play()`),
  `RemoveShortsAndAds` and `OnMutation` for the observer callback. Only
  `RemoveShortsAndAds` and `RemovePopup` loop; they remove elements from the
  document field in place. The other methods are straight-line code. Each
  method's `ensures` ties the new state to the step function of `Watcher`.
  The site's own changes between two callbacks are assignments to the `doc`
  field. `ListingVideoListing` is a client. On a listing page the ad slots go; on a
  video page shelves added again stay; back on a listing page they go again.

The invariant kept by every batch is `Inv`:

- `hasResumedVideo ==> hasRemoved`
- `plays` is at most 1, and is 0 while `hasRemoved` is false.

Because `hasRemoved` never goes back to false, play is called at most once
in a page's lifetime (`LifetimeSpec`). Once the popup is gone, play is never
called again (`RunNoPlayAfterRemoval`).

Before the popup is found, the first batch whose page shows it plays the
primary video (the first `video.html5-main-video`) when that video is paused
after progress, whatever other video elements come before it (`BatchResumes`,
`RunResumesAtFirstPopup`).

Three behaviours of the script are worth noting:

- The comment at script.js:88-89 says the popup appears once per session. The
  code resets only `hasResumedVideo` (script.js:90) and never `hasRemoved`.
  `BatchFlags` proves this.
- `document.querySelector` (script.js:42) returns only the first match. So only
  the first element of each marker tag goes. `PopupStepSpec` proves that the
  rest stay, each element in its place.
- The comment at script.js:70 says the address is tracked "so we can resume
  the new video". But resumeVideoOnce is only called in the batch where
  removePopup returns true (script.js:77-79). That happens at most once,
  because `hasRemoved` stays true. So clearing `hasResumedVideo` on
  navigation (script.js:86-92) never leads to another play.
  `RunNoPlayAfterRemoval` and `BatchFlags` prove this. The model keeps the
  code's behaviour.

## Model

| member | source | states |
|---|---|---|
| `Dom.QuerySelector` | script.js:42 | the result is the position of the first element in document order matching the selector, or None exactly when no element matches |
| `Dom.RemoveAt` | script.js:45 | removing one element shortens the document by one, and putting the element back at its place gives the original document |
| `Dom.ContainsIff` | script.js:81 | `href.includes(pattern)` holds exactly when the pattern occurs at some offset of the address |
| `Watcher.OnlyExactHost` | script.js:95 | the guard is an exact host comparison: no subdomain of www.youtube.com and not the bare domain activate the watcher, and a host `sub.youtube.com` activates it iff `sub` is `www` |
| `Watcher.WithoutShelvesSpec` | script.js:2-12 | no element of the three shelf/ad tags remains; every other element is kept as often as it occurred; each other tag's elements keep their order; a document without shelves is unchanged; removal distributes over concatenation, so survivors keep document order; removing twice is removing once |
| `Watcher.RemoveFirstOfEachRemoved` | script.js:39-48 | for distinct tags, the loop's `didRemoveThisTime` ends true iff some listed tag is present in the document |
| `Watcher.RemoveFirstOfEachTagged` | script.js:41-48 | for distinct tags, exactly the first element of each listed tag is gone and the rest of that tag's elements stay in order; elements of unlisted tags are untouched |
| `Watcher.RemoveFirstOfEachExcluding` | script.js:41-48 | the document outside the listed tags is unchanged, in order |
| `Watcher.RemoveFirstOfEachDrops` | script.js:41-48 | for distinct tags, the loop's document is the original with exactly the first element of each listed tag dropped (`DropFirstOf`, one pass in document order) and every other element in its place |
| `Dom.RemoveFirstDropFirstOf` | script.js:42-45 | one more `querySelector` and `remove()` for a new tag, after the first elements of some tags are gone, drops the first element of the new tag as well |
| `Watcher.PopupStepSpec` | script.js:33-54 | once `hasRemoved` is set, removePopup returns false and changes nothing; before that it returns true iff a backdrop or popup container is present, stores exactly that in `hasRemoved`, removes only the first element of each of the two tags, leaves every other element in its place (the new document is `DropFirstOf` the old one and the two tags), and leaves the other flag, the address and the play count alone |
| `Watcher.ResumeStepSpec` | script.js:57-68 | resumeVideoOnce plays iff the two flags are not both set and the primary video (first `video.html5-main-video`) is paused with `currentTime > 0`; it then unpauses only that element and sets `hasResumedVideo`; otherwise (no video, at time 0, playing, or both flags set) nothing changes; `hasRemoved` and the address never change |
| `Watcher.ResumeKeepsTagged` | script.js:63-66 | resuming leaves every element of a tag other than `video` as it was |
| `Watcher.InitInv` | script.js:18-21 | the starting state, both flags false and no play, satisfies the invariant |
| `Watcher.BatchInv` | script.js:73-93 | every batch preserves `hasResumedVideo ==> hasRemoved` and keeps `plays` at most 1, and 0 while `hasRemoved` is false |
| `Watcher.BatchFlags` | script.js:73-93 | after a batch `hasRemoved` is the old flag or "a popup element was present", never cleared by navigation; on a new address `hasResumedVideo` is false and `oldHref` is the address; on the same address `oldHref` stays and `hasResumedVideo` is set iff it was set or play was called in this batch; play is called at most once per batch, and only in the batch that first finds the popup |
| `Watcher.PopupKeepsTagged` | script.js:33-54 | removePopup leaves every shelf and ad element as it was |
| `Watcher.ShelfPhaseTagged` | script.js:81-84 | the shelf phase keeps the shelf and ad elements on an address containing `watch?v=` and removes all of them elsewhere |
| `Watcher.BatchShelves` | script.js:81-84 | on an address containing `watch?v=` the shelf and ad elements are exactly as before the batch; on any other address none remains |
| `Watcher.DropFirstOfKeepsPrimary` | script.js:27 | dropping elements of tags other than `video` keeps the same element as the first `video.html5-main-video` |
| `Watcher.PopupStepNoPopup` | script.js:39-53 | before the popup was removed, on a page with no backdrop and no popup container, removePopup returns false and the state, document included, is unchanged |
| `Watcher.PopupKeepsVideos` | script.js:41-48 | removePopup leaves the video elements as they were |
| `Watcher.PopupKeepsWaiting` | script.js:41-48 | a primary video paused after progress is still the primary video, paused after progress, once removePopup has run |
| `Watcher.PopupStepFinds` | script.js:34-53 | before the popup was removed, a present backdrop or popup container makes removePopup return true and set `hasRemoved` |
| `Watcher.BatchResumes` | script.js:73-79 | before the popup was removed, a batch whose page shows the popup and whose primary video is paused after progress calls play once and sets `hasRemoved` |
| `Watcher.RunKeepsRemoved` | script.js:33-92 | across any sequence of batches, whatever each batch's page, `hasRemoved` never goes from true to false |
| `Watcher.RunNoPlayAfterRemoval` | script.js:56-79 | once the popup has been removed, no later batch calls play, whatever later pages show and whatever the addresses |
| `Watcher.RunInv` | script.js:73-93 | the invariant holds after any sequence of batches on any pages |
| `Watcher.RunResumesAtFirstPopup` | script.js:73-93 | before any popup was seen, the run up to the first batch whose page shows one, with its primary video paused after progress, has called play exactly once and set `hasRemoved` |
| `Watcher.LifetimeSpec` | script.js:70-98 | over a page's lifetime, whatever the pages of its batches, play is called at most once and the invariant holds; on any other host (the guard's definition read back) nothing is removed, nothing is played and `hasRemoved` stays false |
| `PageWatching.PageWatcher.constructor` | script.js:18-71 | the watcher starts with both flags false, no play, and the address at load time |
| `PageWatching.PageWatcher.RemoveShortsAndAds` | script.js:2-12 | the in-place removal loop leaves exactly `WithoutShelves` of the old document and changes no other field |
| `PageWatching.PageWatcher.RemovePopup` | script.js:33-54 | the early return, the loop over IDENTIFIERS and the final assignment to `hasRemoved` give exactly `PopupStep` of the old state, result included |
| `PageWatching.PageWatcher.GetPrimaryVideo` | script.js:27 | the result is the position of the primary video (the first `video.html5-main-video`), or None when no element matches |
| `PageWatching.PageWatcher.Play` | script.js:65 | `video.play()` unpauses that one element and counts one play |
| `PageWatching.PageWatcher.ResumeVideoOnce` | script.js:57-68 | the new state is `ResumeStep` of the old one |
| `PageWatching.PageWatcher.OnMutation` | script.js:73-93 | the callback's new state is `BatchStep` of the old state and the address, and the object invariant is kept |

## Left out

- MutationObserver registration and event delivery (script.js:73, script.js:96) are host plumbing. The callback is the method `OnMutation`, called with the current address.
- The address is a parameter. `window.location.href` is read three times in one callback, and the model assumes it does not change during a callback.
- The DOM is flattened to a sequence. Nesting is not modelled, so removing an element does not also remove its descendants. CSS selectors are cut down to the two forms the script uses: a tag, and a tag with a class.
- `PageWatching.PageWatcher.RemoveShortsAndAds`: the script first collects the matches of the three tags, then removes each one. The model removes matches in one pass in document order. In a flat document both leave the same result.
- `video.play()` is modelled as clearing `paused` and counting a play. Real media behaviour, and the promise that `play()` returns, are not modelled.
- `currentTime` is a `real`. Floating-point behaviour is not modelled beyond the `> 0.0` comparison.
- There is no teardown in the script (script.js:97), so there is none in the model.
