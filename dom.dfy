/** An abstract page document and the few DOM and string operations the
    page watcher relies on. The document is flattened into a sequence of
    elements in document order; removing an element removes that one entry. */
module Dom {

  datatype Option<T> = None | Some(value: T)

  /** One element of the page. `paused` and `currentTime` are the media state
      that a video element carries; the watcher reads them only on the video. */
  datatype Element = Element(tag: string, classes: set<string>, paused: bool, currentTime: real)

  /** The two selector forms the watcher uses: a bare tag name (`ytd-popup-container`)
      and a tag with a class (`video.html5-main-video`). */
  datatype Selector = Tag(name: string) | TagWithClass(name: string, cls: string)

  predicate Matches(sel: Selector, e: Element)
  {
    match sel
    case Tag(n) => e.tag == n
    case TagWithClass(n, c) => e.tag == n && c in e.classes
  }

  /** Some element of `doc` carries tag `t`. */
  predicate Present(doc: seq<Element>, t: string)
  {
    exists i :: 0 <= i < |doc| && doc[i].tag == t
  }

  /** `document.querySelector(sel)`: the position of the first element in
      document order that matches `sel`, or None when nothing matches. */
  function QuerySelector(doc: seq<Element>, sel: Selector): (r: Option<nat>)
    ensures r.Some? ==> r.value < |doc| && Matches(sel, doc[r.value])
    ensures r.Some? ==> forall j :: 0 <= j < r.value ==> !Matches(sel, doc[j])
    ensures r.None? ==> forall j :: 0 <= j < |doc| ==> !Matches(sel, doc[j])
  {
    if doc == [] then None
    else if Matches(sel, doc[0]) then Some(0)
    else match QuerySelector(doc[1..], sel)
      case None => None
      case Some(k) => Some(k + 1)
  }

  /** The first matching element is the one QuerySelector finds. */
  lemma QuerySelectorFirst(doc: seq<Element>, sel: Selector, i: nat)
    requires i < |doc| && Matches(sel, doc[i])
    requires forall j :: 0 <= j < i ==> !Matches(sel, doc[j])
    ensures QuerySelector(doc, sel) == Some(i)
  {
  }

  /** `element.remove()` on the element at position `i`: the others close up. */
  function RemoveAt(doc: seq<Element>, i: nat): (r: seq<Element>)
    requires i < |doc|
    ensures |r| == |doc| - 1
    ensures doc == r[..i] + [doc[i]] + r[i..]
  {
    doc[..i] + doc[i + 1..]
  }

  /** Before position `i` nothing moves; from `i` on, the elements after the
      removed one close up. */
  lemma RemoveAtCut(doc: seq<Element>, i: nat)
    requires i < |doc|
    ensures RemoveAt(doc, i)[..i] == doc[..i] && RemoveAt(doc, i)[i..] == doc[i + 1..]
  {
  }

  /** The elements of `doc` whose tag is not one of `tags`, in document order. */
  function Excluding(doc: seq<Element>, tags: seq<string>): seq<Element>
  {
    if doc == [] then []
    else (if doc[0].tag in tags then [] else [doc[0]]) + Excluding(doc[1..], tags)
  }

  /** The elements of `doc` that carry tag `t`, in document order. */
  function Tagged(doc: seq<Element>, t: string): seq<Element>
  {
    if doc == [] then []
    else (if doc[0].tag == t then [doc[0]] else []) + Tagged(doc[1..], t)
  }

  function DropFirst<T>(s: seq<T>): seq<T>
  {
    if s == [] then [] else s[1..]
  }

  /** The document with the first element of each tag in `tags` dropped, in
      one pass in document order; every other element keeps its place. */
  function DropFirstOf(doc: seq<Element>, tags: set<string>): seq<Element>
  {
    if doc == [] then []
    else if doc[0].tag in tags then DropFirstOf(doc[1..], tags - {doc[0].tag})
    else [doc[0]] + DropFirstOf(doc[1..], tags)
  }

  /** `querySelector` for a tag followed by `remove()` on what it finds. */
  function RemoveFirst(doc: seq<Element>, t: string): seq<Element>
  {
    match QuerySelector(doc, Tag(t))
    case None => doc
    case Some(i) => RemoveAt(doc, i)
  }

  /** JavaScript's `s.includes(pat)`. */
  function Contains(s: string, pat: string): bool
  {
    |pat| <= |s| && (s[..|pat|] == pat || Contains(s[1..], pat))
  }

  /** `pat` occurs in `s` starting at offset `i`. */
  predicate OccursAt(s: string, pat: string, i: int)
  {
    0 <= i <= |s| - |pat| && s[i..i + |pat|] == pat
  }

  /** An occurrence found by `Contains` is a real one. */
  lemma {:induction false} ContainsSound(s: string, pat: string)
    requires Contains(s, pat)
    ensures exists i :: OccursAt(s, pat, i)
  {
    if s[..|pat|] == pat {
      assert OccursAt(s, pat, 0);
    } else {
      ContainsSound(s[1..], pat);
      var i :| OccursAt(s[1..], pat, i);
      assert s[i + 1..i + 1 + |pat|] == s[1..][i..i + |pat|];
      assert OccursAt(s, pat, i + 1);
    }
  }

  /** Every occurrence of `pat` in `s` is found by `Contains`. */
  lemma {:induction false} ContainsComplete(s: string, pat: string, i: int)
    requires OccursAt(s, pat, i)
    ensures Contains(s, pat)
    decreases i
  {
    if i > 0 {
      var t := s[1..];
      assert t[i - 1..i - 1 + |pat|] == s[i..i + |pat|];
      ContainsComplete(t, pat, i - 1);
    } else {
      assert s[..|pat|] == s[i..i + |pat|];
    }
  }

  /** `Contains` holds exactly when `pat` occurs at some offset of `s`. */
  lemma ContainsIff(s: string, pat: string)
    ensures Contains(s, pat) <==> exists i :: OccursAt(s, pat, i)
  {
    if Contains(s, pat) {
      ContainsSound(s, pat);
    }
    if exists i :: OccursAt(s, pat, i) {
      var i :| OccursAt(s, pat, i);
      ContainsComplete(s, pat, i);
    }
  }

  lemma {:induction false} ExcludingConcat(a: seq<Element>, b: seq<Element>, tags: seq<string>)
    ensures Excluding(a + b, tags) == Excluding(a, tags) + Excluding(b, tags)
  {
    if a != [] {
      assert (a + b)[1..] == a[1..] + b;
      ExcludingConcat(a[1..], b, tags);
    } else {
      assert a + b == b;
    }
  }

  /** A document with no element of the excluded tags is left as it is. */
  lemma {:induction false} ExcludingNothing(doc: seq<Element>, tags: seq<string>)
    requires forall i :: 0 <= i < |doc| ==> doc[i].tag !in tags
    ensures Excluding(doc, tags) == doc
  {
    if doc != [] {
      ExcludingNothing(doc[1..], tags);
    }
  }

  /** Excluding keeps every element whose tag is not excluded as many times as
      it occurs, and drops every element whose tag is excluded. */
  lemma {:induction false} ExcludingCounts(doc: seq<Element>, tags: seq<string>)
    ensures forall e :: multiset(Excluding(doc, tags))[e] == if e.tag in tags then 0 else multiset(doc)[e]
  {
    if doc != [] {
      ExcludingCounts(doc[1..], tags);
      assert doc == [doc[0]] + doc[1..];
    }
  }

  /** No element of an excluded tag remains. */
  lemma ExcludingRemovesAll(doc: seq<Element>, tags: seq<string>)
    ensures forall i :: 0 <= i < |Excluding(doc, tags)| ==> Excluding(doc, tags)[i].tag !in tags
  {
    ExcludingCounts(doc, tags);
    forall i | 0 <= i < |Excluding(doc, tags)|
      ensures Excluding(doc, tags)[i].tag !in tags
    {
      var e := Excluding(doc, tags)[i];
      assert e in multiset(Excluding(doc, tags));
    }
  }

  lemma ExcludingIdempotent(doc: seq<Element>, tags: seq<string>)
    ensures Excluding(Excluding(doc, tags), tags) == Excluding(doc, tags)
  {
    ExcludingRemovesAll(doc, tags);
    ExcludingNothing(Excluding(doc, tags), tags);
  }

  lemma {:induction false} TaggedConcat(a: seq<Element>, b: seq<Element>, t: string)
    ensures Tagged(a + b, t) == Tagged(a, t) + Tagged(b, t)
  {
    if a != [] {
      assert (a + b)[1..] == a[1..] + b;
      TaggedConcat(a[1..], b, t);
    } else {
      assert a + b == b;
    }
  }

  /** Tagged(doc, t) is empty exactly when no element carries `t`. */
  lemma {:induction false} TaggedEmpty(doc: seq<Element>, t: string)
    ensures Tagged(doc, t) == [] <==> !Present(doc, t)
  {
    if doc != [] {
      TaggedEmpty(doc[1..], t);
      if doc[0].tag != t && Present(doc, t) {
        var i :| 0 <= i < |doc| && doc[i].tag == t;
        assert doc[1..][i - 1].tag == t;
      }
      if Present(doc[1..], t) {
        var i :| 0 <= i < |doc[1..]| && doc[1..][i].tag == t;
        assert doc[i + 1].tag == t;
      }
    }
  }

  /** Excluding a set of tags leaves the elements of any other tag as they were. */
  lemma {:induction false} TaggedExcluding(doc: seq<Element>, tags: seq<string>, t: string)
    ensures Tagged(Excluding(doc, tags), t) == if t in tags then [] else Tagged(doc, t)
  {
    if doc != [] {
      TaggedExcluding(doc[1..], tags, t);
      var head := if doc[0].tag in tags then [] else [doc[0]];
      TaggedConcat(head, Excluding(doc[1..], tags), t);
    }
  }

  /** Cutting the document at position `i`, with and without the element there. */
  lemma TaggedSplit(doc: seq<Element>, i: nat, u: string)
    requires i < |doc|
    ensures Tagged(doc, u) == Tagged(doc[..i], u) + Tagged([doc[i]], u) + Tagged(doc[i + 1..], u)
    ensures Tagged(RemoveAt(doc, i), u) == Tagged(doc[..i], u) + Tagged(doc[i + 1..], u)
  {
    assert doc == doc[..i] + [doc[i]] + doc[i + 1..];
    TaggedConcat(doc[..i] + [doc[i]], doc[i + 1..], u);
    TaggedConcat(doc[..i], [doc[i]], u);
    TaggedConcat(doc[..i], doc[i + 1..], u);
  }

  lemma ExcludingSplit(doc: seq<Element>, i: nat, tags: seq<string>)
    requires i < |doc|
    ensures Excluding(doc, tags) == Excluding(doc[..i], tags) + Excluding([doc[i]], tags) + Excluding(doc[i + 1..], tags)
    ensures Excluding(RemoveAt(doc, i), tags) == Excluding(doc[..i], tags) + Excluding(doc[i + 1..], tags)
  {
    assert doc == doc[..i] + [doc[i]] + doc[i + 1..];
    ExcludingConcat(doc[..i] + [doc[i]], doc[i + 1..], tags);
    ExcludingConcat(doc[..i], [doc[i]], tags);
    ExcludingConcat(doc[..i], doc[i + 1..], tags);
  }

  /** Removing the first element of tag `t` drops the first of the `t`-tagged elements. */
  lemma RemoveAtFirstTagged(doc: seq<Element>, i: nat, t: string)
    requires i < |doc| && doc[i].tag == t
    requires forall j :: 0 <= j < i ==> doc[j].tag != t
    ensures Tagged(RemoveAt(doc, i), t) == DropFirst(Tagged(doc, t))
  {
    TaggedSplit(doc, i, t);
    TaggedEmpty(doc[..i], t);
    assert Tagged([doc[i]], t) == [doc[i]];
  }

  /** Removing an element leaves the elements of every other tag alone. */
  lemma RemoveAtOtherTag(doc: seq<Element>, i: nat, u: string)
    requires i < |doc| && doc[i].tag != u
    ensures Tagged(RemoveAt(doc, i), u) == Tagged(doc, u)
  {
    TaggedSplit(doc, i, u);
    assert Tagged([doc[i]], u) == [];
  }

  /** Removing an element of an excluded tag leaves the rest alone. */
  lemma RemoveAtExcluded(doc: seq<Element>, i: nat, tags: seq<string>)
    requires i < |doc| && doc[i].tag in tags
    ensures Excluding(RemoveAt(doc, i), tags) == Excluding(doc, tags)
  {
    ExcludingSplit(doc, i, tags);
    assert Excluding([doc[i]], tags) == [];
  }

  /** Changing an element without changing its tag leaves the elements of
      every other tag as they were. */
  lemma TaggedUpdate(doc: seq<Element>, i: nat, x: Element, u: string)
    requires i < |doc| && x.tag == doc[i].tag && u != x.tag
    ensures Tagged(doc[i := x], u) == Tagged(doc, u)
  {
    var d := doc[i := x];
    assert d[..i] == doc[..i] && d[i + 1..] == doc[i + 1..];
    TaggedSplit(doc, i, u);
    TaggedSplit(d, i, u);
  }


  lemma {:induction false} DropFirstOfNothing(doc: seq<Element>)
    ensures DropFirstOf(doc, {}) == doc
  {
    if doc != [] {
      DropFirstOfNothing(doc[1..]);
    }
  }

  /** A document with no element of the listed tags loses nothing. */
  lemma {:induction false} DropFirstOfAbsent(doc: seq<Element>, tags: set<string>)
    requires forall k :: 0 <= k < |doc| ==> doc[k].tag !in tags
    ensures DropFirstOf(doc, tags) == doc
  {
    if doc != [] {
      assert forall k :: 0 <= k < |doc[1..]| ==> doc[1..][k] == doc[k + 1];
      DropFirstOfAbsent(doc[1..], tags);
    }
  }

  /** Removing the first element of one more tag `t` from a document that has
      lost the first element of each of `tags` drops the first of `t` as well. */
  lemma {:induction false} RemoveFirstDropFirstOf(doc: seq<Element>, tags: set<string>, t: string)
    requires t !in tags
    ensures RemoveFirst(DropFirstOf(doc, tags), t) == DropFirstOf(doc, tags + {t})
  {
    if doc != [] {
      var x := doc[0];
      if x.tag in tags {
        assert (tags + {t}) - {x.tag} == (tags - {x.tag}) + {t};
        RemoveFirstDropFirstOf(doc[1..], tags - {x.tag}, t);
      } else if x.tag == t {
        assert (tags + {t}) - {t} == tags;
        RemoveFirstHead(x, DropFirstOf(doc[1..], tags), t);
      } else {
        RemoveFirstDropFirstOf(doc[1..], tags, t);
        RemoveFirstCons(x, DropFirstOf(doc[1..], tags), t);
      }
    }
  }

  lemma RemoveFirstHead(x: Element, d: seq<Element>, t: string)
    requires x.tag == t
    ensures RemoveFirst([x] + d, t) == d
  {
    assert RemoveAt([x] + d, 0) == d;
  }

  /** An element of another tag in front is left where it is. */
  lemma RemoveFirstCons(x: Element, d: seq<Element>, t: string)
    requires x.tag != t
    ensures RemoveFirst([x] + d, t) == [x] + RemoveFirst(d, t)
  {
    assert ([x] + d)[1..] == d;
    match QuerySelector(d, Tag(t))
    case None =>
    case Some(k) =>
      assert RemoveAt([x] + d, k + 1) == [x] + RemoveAt(d, k);
  }
}
