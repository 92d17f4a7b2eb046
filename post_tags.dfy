/**
 * The hashtag bookkeeping of `PostService` (and of `PostController.Create`,
 * which repeats it): finding or creating the `Hashtags` row of a tag,
 * linking a post to it in `PostHashtags`, and the add/remove diff that
 * `UpdatePostAsync` applies when a post's tags change.
 *
 * The functions here work on the values of the two tables; the methods of
 * `PostService` run the same steps on a `Data.Database` and are proved to
 * end in the state these functions compute.
 */
module PostTags {
  import opened Wrappers
  import opened Text
  import opened Entities
  import opened Data

  /** The tables the hashtag steps read and write. */
  datatype TagTables = TagTables(hashtags: seq<Hashtag>, hashtagSeq: nat, links: seq<PostHashtag>)

  ghost predicate TablesValid(t: TagTables)
  {
    ValidHashtags(t.hashtags, t.hashtagSeq) && UniqueBy(t.links, LinkKey)
  }

  predicate NoHash(tags: seq<string>)
  {
    forall k | 0 <= k < |tags| :: '#' !in tags[k]
  }

  predicate Distinct<T(==)>(s: seq<T>)
  {
    forall i, j | 0 <= i < j < |s| :: s[i] != s[j]
  }

  lemma DistinctCons<T>(s: seq<T>)
    requires s != []
    ensures Distinct(s) <==> Distinct(s[1..]) && s[0] !in s[1..]
  {
    if Distinct(s[1..]) && s[0] !in s[1..] {
      forall i, j | 0 <= i < j < |s| ensures s[i] != s[j]
      {
        assert s[j] == s[1..][j - 1];
        if i > 0 {
          assert s[i] == s[1..][i - 1];
        }
      }
    }
  }

  /** `Hashtags.Where(Tag == tag).FirstOrDefault()?.Id`. */
  function IdOf(hashtags: seq<Hashtag>, tag: string): (r: Option<nat>)
    ensures r.None? <==> KeyAbsent(hashtags, HashtagTag, tag)
    ensures r.Some? ==> exists i | 0 <= i < |hashtags| :: hashtags[i].tag == tag && hashtags[i].id == r.value
  {
    match FindIndex(hashtags, HashtagTag, tag)
    case None => None
    case Some(i) => Some(hashtags[i].id)
  }

  /** With unique ids, two tags with the same id are the same tag. */
  lemma IdOfInjective(hashtags: seq<Hashtag>, x: string, y: string)
    requires UniqueBy(hashtags, HashtagId)
    requires IdOf(hashtags, x).Some? && IdOf(hashtags, x) == IdOf(hashtags, y)
    ensures x == y
  {
    var i :| 0 <= i < |hashtags| && hashtags[i].tag == x && hashtags[i].id == IdOf(hashtags, x).value;
    var j :| 0 <= j < |hashtags| && hashtags[j].tag == y && hashtags[j].id == IdOf(hashtags, x).value;
    assert HashtagId(hashtags[i]) == HashtagId(hashtags[j]);
  }

  lemma IdOfAppend(hashtags: seq<Hashtag>, row: Hashtag, x: string)
    ensures row.tag != x ==> IdOf(hashtags + [row], x) == IdOf(hashtags, x)
    ensures row.tag == x && KeyAbsent(hashtags, HashtagTag, x) ==> IdOf(hashtags + [row], x) == Some(row.id)
  {
    if row.tag != x {
      FindIndexAppendOther(hashtags, row, HashtagTag, x);
    } else if KeyAbsent(hashtags, HashtagTag, x) {
      FindIndexAppendNew(hashtags, row, HashtagTag);
    }
  }

  lemma IdOfPrefix(hashtags: seq<Hashtag>, more: seq<Hashtag>, x: string)
    requires IdOf(hashtags, x).Some?
    ensures IdOf(hashtags + more, x) == IdOf(hashtags, x)
  {
    FindIndexPrefix(hashtags, more, HashtagTag, x);
  }

  /** A row of `links` joins post `postId` to hashtag `h`. */
  predicate HasLink(links: seq<PostHashtag>, postId: nat, h: nat)
  {
    !KeyAbsent(links, LinkKey, (postId, h))
  }

  /** Post `postId` is linked to the stored hashtag whose text is `tag`. */
  predicate Linked(t: TagTables, postId: nat, tag: string)
  {
    match IdOf(t.hashtags, tag)
    case None => false
    case Some(h) => HasLink(t.links, postId, h)
  }

  /** Every link of the post names a hashtag id below the identity counter. */
  ghost predicate PostLinksBelow(t: TagTables, postId: nat)
  {
    forall j | 0 <= j < |t.links| && t.links[j].postId == postId :: t.links[j].hashtagId < t.hashtagSeq
  }

  /**
   * Find-or-create can give `tag` a row: it has one already, or it fits the
   * 64-character `Tag` column, so that saving a new row for it succeeds.
   */
  predicate Fits(hashtags: seq<Hashtag>, tag: string)
  {
    IdOf(hashtags, tag).Some? || |tag| <= TagMaxLength
  }

  /** Every tag of `tags` fits. */
  predicate AllFit(hashtags: seq<Hashtag>, tags: seq<string>)
  {
    forall k | 0 <= k < |tags| :: Fits(hashtags, tags[k])
  }

  /** After a step that gave `tags[0]` its row, the rest fit exactly when all the tags fitted before it. */
  lemma AllFitCons(hashtags: seq<Hashtag>, hashtags1: seq<Hashtag>, tags: seq<string>)
    requires tags != [] && Fits(hashtags, tags[0])
    requires forall x :: Fits(hashtags1, x) <==> Fits(hashtags, x) || x == tags[0]
    ensures AllFit(hashtags, tags) <==> AllFit(hashtags1, tags[1..])
  {
    assert forall k | 1 <= k < |tags| :: tags[k] == tags[1..][k - 1];
    if AllFit(hashtags1, tags[1..]) {
      forall k | 0 <= k < |tags| ensures Fits(hashtags, tags[k])
      {
        if k > 0 && tags[k] != tags[0] {
          assert Fits(hashtags1, tags[1..][k - 1]);
        }
      }
    }
  }

  /**
   * Find-or-create: the id of the row with text `tag`, or the id of a row
   * `Hashtag { Tag = tag.Replace("#", "") }` added for it.
   */
  function EnsureHashtag(t: TagTables, tag: string, now: Time): (r: (TagTables, nat))
    requires '#' !in tag && Fits(t.hashtags, tag)
    ensures r.0.links == t.links
    ensures IdOf(r.0.hashtags, tag) == Some(r.1)
    ensures IdOf(t.hashtags, tag).Some? ==> r == (t, IdOf(t.hashtags, tag).value)
    ensures IdOf(t.hashtags, tag).None? ==>
      && r.1 == t.hashtagSeq
      && r.0.hashtags == t.hashtags + [Hashtag(t.hashtagSeq, tag, now)]
      && r.0.hashtagSeq == t.hashtagSeq + 1
  {
    match IdOf(t.hashtags, tag)
    case Some(h) => (t, h)
    case None =>
      RemoveCharAbsent(tag, '#');
      var row := Hashtag(t.hashtagSeq, RemoveChar(tag, '#'), now);
      IdOfAppend(t.hashtags, row, tag);
      (t.(hashtags := t.hashtags + [row], hashtagSeq := t.hashtagSeq + 1), t.hashtagSeq)
  }

  /** Find-or-create keeps the tables valid, moves no other tag, and never reuses an id. */
  lemma EnsureHashtagFacts(t: TagTables, tag: string, now: Time)
    requires TablesValid(t) && '#' !in tag && Fits(t.hashtags, tag)
    ensures var (t1, id) := EnsureHashtag(t, tag, now);
      && TablesValid(t1)
      && t.hashtags <= t1.hashtags
      && t.hashtagSeq <= t1.hashtagSeq
      && id < t1.hashtagSeq
      && (IdOf(t.hashtags, tag).None? ==> id == t.hashtagSeq)
      && (forall x | x != tag :: IdOf(t1.hashtags, x) == IdOf(t.hashtags, x))
      && (forall x :: Fits(t1.hashtags, x) <==> Fits(t.hashtags, x) || x == tag)
  {
    var (t1, id) := EnsureHashtag(t, tag, now);
    if IdOf(t.hashtags, tag).None? {
      var row := Hashtag(t.hashtagSeq, tag, now);
      assert t1.hashtags == t.hashtags + [row];
      UniqueAppend(t.hashtags, row, HashtagTag);
      UniqueAppend(t.hashtags, row, HashtagId);
      forall x | x != tag ensures IdOf(t1.hashtags, x) == IdOf(t.hashtags, x)
      {
        IdOfAppend(t.hashtags, row, x);
      }
    } else {
      var i :| 0 <= i < |t.hashtags| && t.hashtags[i].tag == tag && t.hashtags[i].id == id;
    }
  }

  /**
   * The tag loop of `CreatePostAsync`: for each tag in order, find or create
   * its hashtag and then save a link of the post to it. A new row for a tag
   * longer than the column, or a link whose key is already stored, makes
   * its save fail and ends the loop.
   */
  function LinkAll(t: TagTables, postId: nat, tags: seq<string>, now: Time): (r: (TagTables, Option<Error>))
    requires NoHash(tags)
    ensures r.1.Some? ==> r.1 == Some(SaveFailed)
    ensures t.hashtags <= r.0.hashtags && t.links <= r.0.links
    ensures forall j | |t.links| <= j < |r.0.links| :: r.0.links[j].postId == postId && r.0.links[j].createdAt == now
    decreases |tags|
  {
    if tags == [] then (t, None)
    else if !Fits(t.hashtags, tags[0]) then (t, Some(SaveFailed))
    else
      var (t1, id) := EnsureHashtag(t, tags[0], now);
      if HasLink(t1.links, postId, id) then (t1, Some(SaveFailed))
      else LinkAll(t1.(links := t1.links + [PostHashtag(postId, id, now)]), postId, tags[1..], now)
  }

  /**
   * `LinkAll` over the tags from position `k`: when the step for `tags[k]`
   * (its hashtag found, created or refused, then its link saved or refused)
   * yields `t2` and `err`, a refusal ends the run there and a save goes on
   * from `k + 1` in `t2`.
   */
  lemma LinkAllNext(t: TagTables, t2: TagTables, err: Option<Error>, postId: nat, tags: seq<string>, k: nat, now: Time)
    requires NoHash(tags) && k < |tags|
    requires !Fits(t.hashtags, tags[k]) ==> err == Some(SaveFailed) && t2 == t
    requires Fits(t.hashtags, tags[k]) ==>
      var t1 := EnsureHashtag(t, tags[k], now).0;
      var id := EnsureHashtag(t, tags[k], now).1;
      if HasLink(t1.links, postId, id) then err == Some(SaveFailed) && t2 == t1
      else err.None? && t2 == t1.(links := t1.links + [PostHashtag(postId, id, now)])
    ensures err.Some? ==> LinkAll(t, postId, tags[k..], now) == (t2, err)
    ensures err.None? ==> LinkAll(t, postId, tags[k..], now) == LinkAll(t2, postId, tags[k + 1..], now)
  {
    assert tags[k..][0] == tags[k] && tags[k..][1..] == tags[k + 1..];
  }

  /** One step of `LinkAll`: the link it adds is new exactly when the tag was not linked yet. */
  lemma LinkStep(t: TagTables, postId: nat, tag: string, now: Time)
    requires TablesValid(t) && PostLinksBelow(t, postId) && '#' !in tag && Fits(t.hashtags, tag)
    ensures var (t1, id) := EnsureHashtag(t, tag, now);
      && (HasLink(t1.links, postId, id) <==> Linked(t, postId, tag))
      && (!HasLink(t1.links, postId, id) ==>
            var t2 := t1.(links := t1.links + [PostHashtag(postId, id, now)]);
            && TablesValid(t2)
            && PostLinksBelow(t2, postId)
            && forall x :: Linked(t2, postId, x) <==> Linked(t, postId, x) || x == tag)
  {
    EnsureHashtagFacts(t, tag, now);
    var (t1, id) := EnsureHashtag(t, tag, now);
    if IdOf(t.hashtags, tag).None? {
      assert !HasLink(t1.links, postId, id) by {
        forall j | 0 <= j < |t.links| ensures LinkKey(t.links[j]) != (postId, id)
        {
          if t.links[j].postId == postId {
            assert t.links[j].hashtagId < t.hashtagSeq;
          }
        }
      }
    }
    if !HasLink(t1.links, postId, id) {
      var link := PostHashtag(postId, id, now);
      var t2 := t1.(links := t1.links + [link]);
      UniqueAppend(t1.links, link, LinkKey);
      forall x ensures Linked(t2, postId, x) <==> Linked(t, postId, x) || x == tag
      {
        if x != tag && IdOf(t.hashtags, x).Some? {
          var hx := IdOf(t.hashtags, x).value;
          if hx == id {
            IdOfInjective(t1.hashtags, x, tag);
          }
          assert HasLink(t2.links, postId, hx) <==> HasLink(t.links, postId, hx) by {
            if HasLink(t2.links, postId, hx) {
              var j :| 0 <= j < |t2.links| && LinkKey(t2.links[j]) == (postId, hx);
              assert j < |t.links|;
              assert t2.links[j] == t.links[j];
            }
            if HasLink(t.links, postId, hx) {
              var j :| 0 <= j < |t.links| && LinkKey(t.links[j]) == (postId, hx);
              assert t2.links[j] == t.links[j];
            }
          }
        }
        if x == tag {
          assert LinkKey(t2.links[|t1.links|]) == (postId, id);
        }
      }
    }
  }

  /** No tag of `tags` is linked to the post yet. */
  predicate Unlinked(t: TagTables, postId: nat, tags: seq<string>)
  {
    forall k | 0 <= k < |tags| :: !Linked(t, postId, tags[k])
  }

  /** After a step that linked `tags[0]`, none of the rest is linked exactly when none was before and the head does not repeat. */
  lemma UnlinkedCons(t: TagTables, t2: TagTables, postId: nat, tags: seq<string>)
    requires tags != [] && !Linked(t, postId, tags[0])
    requires forall x :: Linked(t2, postId, x) <==> Linked(t, postId, x) || x == tags[0]
    ensures Unlinked(t2, postId, tags[1..]) <==> Unlinked(t, postId, tags) && tags[0] !in tags[1..]
  {
    assert forall k | 1 <= k < |tags| :: tags[k] == tags[1..][k - 1];
    if Unlinked(t2, postId, tags[1..]) {
      forall k | 0 <= k < |tags| ensures !Linked(t, postId, tags[k])
      {
        if k > 0 {
          assert !Linked(t2, postId, tags[1..][k - 1]);
        }
      }
    }
  }

  /**
   * What the tag loop of `CreatePostAsync` achieves: it succeeds exactly
   * when the tags are distinct, none is linked to the post yet and each
   * has a row or fits the column, and then the post is linked to exactly
   * the tags it was linked to before plus the given ones, each through the
   * single row stored for its text.
   */
  lemma {:induction false} LinkAllOutcome(t: TagTables, postId: nat, tags: seq<string>, now: Time)
    requires TablesValid(t) && PostLinksBelow(t, postId) && NoHash(tags)
    ensures TablesValid(LinkAll(t, postId, tags, now).0)
    ensures LinkAll(t, postId, tags, now).1.None? <==> Distinct(tags) && Unlinked(t, postId, tags) && AllFit(t.hashtags, tags)
    ensures LinkAll(t, postId, tags, now).1.None? ==>
      forall x :: Linked(LinkAll(t, postId, tags, now).0, postId, x) <==> Linked(t, postId, x) || x in tags
    decreases |tags|
  {
    if tags != [] && Fits(t.hashtags, tags[0]) {
      var tag := tags[0];
      LinkStep(t, postId, tag, now);
      EnsureHashtagFacts(t, tag, now);
      var (t1, id) := EnsureHashtag(t, tag, now);
      DistinctCons(tags);
      if !HasLink(t1.links, postId, id) {
        var t2 := t1.(links := t1.links + [PostHashtag(postId, id, now)]);
        LinkAllOutcome(t2, postId, tags[1..], now);
        AllFitCons(t.hashtags, t2.hashtags, tags);
        UnlinkedCons(t, t2, postId, tags);
        assert LinkAll(t, postId, tags, now) == LinkAll(t2, postId, tags[1..], now);
        assert forall k | 1 <= k < |tags| :: tags[k] == tags[1..][k - 1];
        assert forall x :: x in tags <==> x == tag || x in tags[1..];
      }
    }
  }

  /**
   * For a post with no links yet, as a newly saved post: the tag loop
   * succeeds exactly when no tag repeats and every tag has a row or fits
   * the column, and then links the post to exactly its tags. A content
   * naming the same hashtag twice makes the loop fail on the second
   * occurrence.
   */
  lemma FreshPostLinks(t: TagTables, postId: nat, tags: seq<string>, now: Time)
    requires TablesValid(t) && KeyAbsent(t.links, LinkPost, postId) && NoHash(tags)
    ensures TablesValid(LinkAll(t, postId, tags, now).0)
    ensures LinkAll(t, postId, tags, now).1.None? <==> Distinct(tags) && AllFit(t.hashtags, tags)
    ensures LinkAll(t, postId, tags, now).1.None? ==>
      forall x :: Linked(LinkAll(t, postId, tags, now).0, postId, x) <==> x in tags
  {
    forall x ensures !Linked(t, postId, x)
    {
      if IdOf(t.hashtags, x).Some? {
        assert KeyAbsent(t.links, LinkKey, (postId, IdOf(t.hashtags, x).value));
      }
    }
    LinkAllOutcome(t, postId, tags, now);
  }

  /** LINQ `Intersect`: the elements of `a` also in `keep`, each once, in the order of `a`. */
  function Pick(a: seq<string>, keep: set<string>): (r: seq<string>)
    ensures Distinct(r)
    ensures forall x :: x in r <==> x in a && x in keep
  {
    if a == [] then []
    else if a[0] in keep then [a[0]] + Pick(a[1..], keep - {a[0]})
    else Pick(a[1..], keep)
  }

  /** LINQ `Except`: the elements of `a` not in `drop`, each once, in the order of `a`. */
  function Drop(a: seq<string>, drop: set<string>): (r: seq<string>)
    ensures Distinct(r)
    ensures forall x :: x in r <==> x in a && x !in drop
  {
    if a == [] then []
    else if a[0] in drop then Drop(a[1..], drop)
    else [a[0]] + Drop(a[1..], drop + {a[0]})
  }

  function Elements(s: seq<string>): (r: set<string>)
    ensures forall x :: x in r <==> x in s
  {
    set x | x in s
  }

  function Intersect(a: seq<string>, b: seq<string>): (r: seq<string>)
    ensures Distinct(r) && forall x :: x in r <==> x in a && x in b
  {
    Pick(a, Elements(b))
  }

  function Except(a: seq<string>, b: seq<string>): (r: seq<string>)
    ensures Distinct(r) && forall x :: x in r <==> x in a && x !in b
  {
    Drop(a, Elements(b))
  }

  /** A sequence has at least as many entries as distinct elements, and exactly as many when it repeats none. */
  lemma {:induction false} ElementsCount(s: seq<string>)
    ensures |Elements(s)| <= |s|
    ensures Distinct(s) ==> |Elements(s)| == |s|
  {
    if s != [] {
      ElementsCount(s[1..]);
      assert Elements(s) == Elements(s[1..]) + {s[0]};
      DistinctCons(s);
    }
  }

  lemma {:induction false} SubsetCount(a: set<string>, b: set<string>)
    requires a <= b && |b| <= |a|
    ensures a == b
  {
    if a != b {
      var x :| x in b && x !in a;
      assert a <= b - {x};
      assert |a| <= |b - {x}| by {
        SubsetCard(a, b - {x});
      }
    }
  }

  lemma {:induction false} SubsetCard(a: set<string>, b: set<string>)
    requires a <= b
    ensures |a| <= |b|
    decreases |a|
  {
    if a != {} {
      var x :| x in a;
      SubsetCard(a - {x}, b - {x});
    }
  }

  lemma FirstElement(s: seq<string>)
    ensures s != [] ==> s[0] in s
  {
  }

  /**
   * When the common tags are as many as the old tags and as many as the new
   * ones (the case `UpdatePostAsync` skips), the two tag lists hold the same
   * tags, so there was nothing to add and nothing to remove.
   */
  lemma SkippedUpdateSameTags(oldTags: seq<string>, newTags: seq<string>)
    requires var common := Intersect(oldTags, newTags); |common| == |newTags| && |common| == |oldTags|
    ensures forall x :: x in oldTags <==> x in newTags
    ensures Except(newTags, Intersect(oldTags, newTags)) == [] && Except(oldTags, Intersect(oldTags, newTags)) == []
  {
    var common := Intersect(oldTags, newTags);
    ElementsCount(common);
    ElementsCount(oldTags);
    ElementsCount(newTags);
    assert Elements(common) <= Elements(newTags);
    SubsetCount(Elements(common), Elements(newTags));
    SubsetCount(Elements(common), Elements(oldTags));
    var added := Except(newTags, common);
    var removed := Except(oldTags, common);
    FirstElement(added);
    FirstElement(removed);
  }

  /** The tags `UpdatePostAsync` links: exactly the new tags that were not old ones, each once. */
  lemma AddedTags(oldTags: seq<string>, newTags: seq<string>)
    ensures var added := Except(newTags, Intersect(oldTags, newTags));
      Distinct(added) && forall x :: x in added <==> x in newTags && x !in oldTags
  {
  }

  /** The tags `UpdatePostAsync` unlinks: exactly the old tags that are not new ones, each once. */
  lemma RemovedTags(oldTags: seq<string>, newTags: seq<string>)
    ensures var removed := Except(oldTags, Intersect(oldTags, newTags));
      Distinct(removed) && forall x :: x in removed <==> x in oldTags && x !in newTags
  {
  }

  /**
   * The first loop of `UpdatePostAsync`: find or create each tag's hashtag
   * and collect a link of the post to it. A new row for a tag longer than
   * the column fails its save and ends the loop, keeping the rows saved
   * before it.
   */
  function CollectLinks(t: TagTables, postId: nat, tags: seq<string>, now: Time)
    : (r: (TagTables, seq<PostHashtag>, Option<Error>))
    requires NoHash(tags)
    ensures r.0.links == t.links && t.hashtags <= r.0.hashtags
    ensures r.2.Some? ==> r.2 == Some(SaveFailed) && |r.1| < |tags|
    ensures r.2.None? ==> |r.1| == |tags|
    ensures forall k | 0 <= k < |r.1| :: r.1[k].postId == postId && r.1[k].createdAt == now
    decreases |tags|
  {
    if tags == [] then (t, [], None)
    else if !Fits(t.hashtags, tags[0]) then (t, [], Some(SaveFailed))
    else
      var (t1, id) := EnsureHashtag(t, tags[0], now);
      var (t2, rest, err) := CollectLinks(t1, postId, tags[1..], now);
      (t2, [PostHashtag(postId, id, now)] + rest, err)
  }

  /**
   * The first loop of `UpdatePostAsync` runs to the end exactly when every
   * tag has a row or fits the column. A tag that repeats an earlier one
   * has its row by then, and one that does not finds the table as it was.
   */
  lemma {:induction false} CollectLinksSucceeds(t: TagTables, postId: nat, tags: seq<string>, now: Time)
    requires TablesValid(t) && NoHash(tags)
    ensures CollectLinks(t, postId, tags, now).2.None? <==> AllFit(t.hashtags, tags)
    decreases |tags|
  {
    if tags != [] && Fits(t.hashtags, tags[0]) {
      var tag := tags[0];
      EnsureHashtagFacts(t, tag, now);
      var (t1, id) := EnsureHashtag(t, tag, now);
      CollectLinksSucceeds(t1, postId, tags[1..], now);
      AllFitCons(t.hashtags, t1.hashtags, tags);
    }
  }

  /**
   * One pass of the first loop of `UpdatePostAsync`: when `batch` and the
   * collection from `k` on make up the whole collection, so do `batch` with
   * the link for `tags[k]` and the collection from `k + 1` on.
   */
  lemma CollectLinksStep(start: TagTables, t: TagTables, postId: nat, tags: seq<string>, k: nat, batch: seq<PostHashtag>,
                         now: Time)
    requires NoHash(tags) && k < |tags| && Fits(t.hashtags, tags[k])
    requires var c := CollectLinks(t, postId, tags[k..], now);
      CollectLinks(start, postId, tags, now) == (c.0, batch + c.1, c.2)
    ensures var e := EnsureHashtag(t, tags[k], now);
      var c := CollectLinks(e.0, postId, tags[k + 1..], now);
      CollectLinks(start, postId, tags, now) == (c.0, (batch + [PostHashtag(postId, e.1, now)]) + c.1, c.2)
  {
    var s := tags[k..];
    assert s[0] == tags[k] && s[1..] == tags[k + 1..];
    var e := EnsureHashtag(t, tags[k], now);
    var c := CollectLinks(e.0, postId, tags[k + 1..], now);
    assert CollectLinks(t, postId, s, now) == (c.0, [PostHashtag(postId, e.1, now)] + c.1, c.2);
    assert batch + ([PostHashtag(postId, e.1, now)] + c.1) == (batch + [PostHashtag(postId, e.1, now)]) + c.1;
  }

  /** The pass that ends the first loop of `UpdatePostAsync`: a tag that does not fit ends the collection with `batch`. */
  lemma CollectLinksStop(start: TagTables, t: TagTables, postId: nat, tags: seq<string>, k: nat, batch: seq<PostHashtag>,
                         now: Time)
    requires NoHash(tags) && k < |tags| && !Fits(t.hashtags, tags[k])
    requires var c := CollectLinks(t, postId, tags[k..], now);
      CollectLinks(start, postId, tags, now) == (c.0, batch + c.1, c.2)
    ensures CollectLinks(start, postId, tags, now) == (t, batch, Some(SaveFailed))
  {
    assert tags[k..][0] == tags[k];
    assert batch + [] == batch;
  }

  /** The links name the rows of their tags when the head does and the tail's links name the rows of the tail. */
  lemma IdsOfCons(hashtags: seq<Hashtag>, tags: seq<string>, head: PostHashtag, rest: seq<PostHashtag>)
    requires tags != [] && |rest| <= |tags| - 1 && IdOf(hashtags, tags[0]) == Some(head.hashtagId)
    requires forall k | 0 <= k < |rest| :: IdOf(hashtags, tags[1..][k]) == Some(rest[k].hashtagId)
    ensures forall k | 0 <= k < |rest| + 1 :: IdOf(hashtags, tags[k]) == Some(([head] + rest)[k].hashtagId)
  {
    forall k | 0 <= k < |rest| + 1 ensures IdOf(hashtags, tags[k]) == Some(([head] + rest)[k].hashtagId)
    {
      if k > 0 {
        assert tags[k] == tags[1..][k - 1];
        assert ([head] + rest)[k] == rest[k - 1];
      }
    }
  }

  /** After the first loop every tag it reached has its row, and the collected link names it. */
  lemma {:induction false} CollectLinksFacts(t: TagTables, postId: nat, tags: seq<string>, now: Time)
    requires TablesValid(t) && NoHash(tags)
    ensures TablesValid(CollectLinks(t, postId, tags, now).0)
    ensures forall k | 0 <= k < |CollectLinks(t, postId, tags, now).1| ::
      IdOf(CollectLinks(t, postId, tags, now).0.hashtags, tags[k]) == Some(CollectLinks(t, postId, tags, now).1[k].hashtagId)
    decreases |tags|
  {
    if tags != [] && Fits(t.hashtags, tags[0]) {
      var tag := tags[0];
      EnsureHashtagFacts(t, tag, now);
      var (t1, id) := EnsureHashtag(t, tag, now);
      CollectLinksFacts(t1, postId, tags[1..], now);
      var (t2, rest, err) := CollectLinks(t1, postId, tags[1..], now);
      var batch := [PostHashtag(postId, id, now)] + rest;
      assert CollectLinks(t, postId, tags, now) == (t2, batch, err);
      IdOfPrefix(t1.hashtags, t2.hashtags[|t1.hashtags|..], tag);
      assert t2.hashtags == t1.hashtags + t2.hashtags[|t1.hashtags|..];
      assert IdOf(t2.hashtags, tag) == Some(id);
      IdsOfCons(t2.hashtags, tags, PostHashtag(postId, id, now), rest);
    }
  }

  /** Tags the first loop does not collect keep the row they had. */
  lemma {:induction false} CollectLinksKeepsOthers(t: TagTables, postId: nat, tags: seq<string>, now: Time)
    requires TablesValid(t) && NoHash(tags)
    ensures TablesValid(CollectLinks(t, postId, tags, now).0)
    ensures forall x | x !in tags :: IdOf(CollectLinks(t, postId, tags, now).0.hashtags, x) == IdOf(t.hashtags, x)
    decreases |tags|
  {
    if tags != [] && Fits(t.hashtags, tags[0]) {
      var tag := tags[0];
      EnsureHashtagFacts(t, tag, now);
      var (t1, id) := EnsureHashtag(t, tag, now);
      CollectLinksKeepsOthers(t1, postId, tags[1..], now);
      forall x | x !in tags ensures IdOf(CollectLinks(t, postId, tags, now).0.hashtags, x) == IdOf(t.hashtags, x)
      {
        assert x != tag;
        assert x !in tags[1..];
      }
    }
  }

  /** Some tag of `tags` has its row with id `h`. */
  predicate IdIn(hashtags: seq<Hashtag>, tags: seq<string>, h: nat)
  {
    exists k | 0 <= k < |tags| :: IdOf(hashtags, tags[k]) == Some(h)
  }

  /** The second loop of `UpdatePostAsync`: for each tag with a row, delete the post's links to it. */
  function Unlink(links: seq<PostHashtag>, hashtags: seq<Hashtag>, postId: nat, tags: seq<string>): (r: seq<PostHashtag>)
    ensures |r| <= |links|
    decreases |tags|
  {
    if tags == [] then links
    else match IdOf(hashtags, tags[0])
      case None => Unlink(links, hashtags, postId, tags[1..])
      case Some(h) => Unlink(Without(links, LinkKey, (postId, h)), hashtags, postId, tags[1..])
  }

  /** `Unlink` deletes exactly the post's links to the rows of the given tags. */
  lemma {:induction false} UnlinkKeys(links: seq<PostHashtag>, hashtags: seq<Hashtag>, postId: nat, tags: seq<string>)
    ensures forall p: nat, h: nat :: HasLink(Unlink(links, hashtags, postId, tags), p, h) <==>
      HasLink(links, p, h) && !(p == postId && IdIn(hashtags, tags, h))
    decreases |tags|
  {
    if tags != [] {
      var rest := tags[1..];
      assert forall k | 1 <= k < |tags| :: tags[k] == rest[k - 1];
      assert forall h: nat :: IdIn(hashtags, tags, h) <==> IdOf(hashtags, tags[0]) == Some(h) || IdIn(hashtags, rest, h) by {
        forall h: nat | IdIn(hashtags, rest, h) ensures IdIn(hashtags, tags, h)
        {
          var k :| 0 <= k < |rest| && IdOf(hashtags, rest[k]) == Some(h);
          assert tags[k + 1] == rest[k];
        }
      }
      match IdOf(hashtags, tags[0])
      case None =>
        UnlinkKeys(links, hashtags, postId, rest);
      case Some(h0) =>
        var w := Without(links, LinkKey, (postId, h0));
        UnlinkKeys(w, hashtags, postId, rest);
        forall p: nat, h: nat ensures HasLink(w, p, h) <==> HasLink(links, p, h) && (p, h) != (postId, h0)
        {
          WithoutKeys(links, LinkKey, (postId, h0), (p, h));
        }
    }
  }

  /**
   * The hashtag part of `UpdatePostAsync` once the post is found: when the
   * old and the new tags differ it links the added tags (their rows found
   * or created and saved first, the links saved together), and when that
   * save succeeds it deletes the links of the removed tags. A row the first
   * loop fails to save ends it before any link is saved.
   */
  function UpdateTags(t: TagTables, posts: seq<Post>, postId: nat, oldTags: seq<string>, newTags: seq<string>, now: Time)
    : (r: (TagTables, Option<Error>))
    requires NoHash(oldTags) && NoHash(newTags)
    ensures r.1.Some? ==> r.1 == Some(SaveFailed)
    ensures t.hashtags <= r.0.hashtags
  {
    var common := Intersect(oldTags, newTags);
    if |common| == |newTags| && |common| == |oldTags| then (t, None)
    else
      var added := Except(newTags, common);
      NoHashAdded(oldTags, newTags);
      var (t1, batch, err) := CollectLinks(t, postId, added, now);
      if err.Some? then (t1, err)
      else if !LinksInsertableInto(t1.links, posts, t1.hashtags, batch) then (t1, Some(SaveFailed))
      else (t1.(links := Unlink(t1.links + batch, t1.hashtags, postId, Except(oldTags, common))), None)
  }

  lemma NoHashAdded(oldTags: seq<string>, newTags: seq<string>)
    requires NoHash(newTags)
    ensures NoHash(Except(newTags, Intersect(oldTags, newTags)))
  {
    var added := Except(newTags, Intersect(oldTags, newTags));
    forall k | 0 <= k < |added| ensures '#' !in added[k]
    {
      assert added[k] in newTags;
    }
  }

  /** The tables after both loops of `UpdatePostAsync`, once the collected links were saved. */
  function Relinked(t: TagTables, postId: nat, added: seq<string>, removed: seq<string>, now: Time): (r: TagTables)
    requires NoHash(added)
    ensures r.hashtags == CollectLinks(t, postId, added, now).0.hashtags
  {
    var (t1, batch, _) := CollectLinks(t, postId, added, now);
    t1.(links := Unlink(t1.links + batch, t1.hashtags, postId, removed))
  }

  /** No other tag of `tags` has the row of `x`. */
  lemma IdInOnlyOwnTag(hashtags: seq<Hashtag>, tags: seq<string>, x: string)
    requires UniqueBy(hashtags, HashtagId) && IdOf(hashtags, x).Some? && x !in tags
    ensures !IdIn(hashtags, tags, IdOf(hashtags, x).value)
  {
    if IdIn(hashtags, tags, IdOf(hashtags, x).value) {
      var k :| 0 <= k < |tags| && IdOf(hashtags, tags[k]) == IdOf(hashtags, x);
      IdOfInjective(hashtags, x, tags[k]);
    }
  }

  /** An added tag ends up linked. */
  lemma RelinkedAdded(t: TagTables, postId: nat, added: seq<string>, removed: seq<string>, now: Time, x: string)
    requires TablesValid(t) && NoHash(added) && x in added && x !in removed
    requires CollectLinks(t, postId, added, now).2.None?
    ensures Linked(Relinked(t, postId, added, removed, now), postId, x)
  {
    CollectLinksFacts(t, postId, added, now);
    var (t1, batch, _) := CollectLinks(t, postId, added, now);
    var all := t1.links + batch;
    UnlinkKeys(all, t1.hashtags, postId, removed);
    var k :| 0 <= k < |added| && added[k] == x;
    var hx := IdOf(t1.hashtags, x).value;
    assert LinkKey(all[|t1.links| + k]) == (postId, hx);
    IdInOnlyOwnTag(t1.hashtags, removed, x);
  }

  /** A removed tag ends up unlinked. */
  lemma RelinkedRemoved(t: TagTables, postId: nat, added: seq<string>, removed: seq<string>, now: Time, x: string)
    requires TablesValid(t) && NoHash(added) && x in removed
    ensures !Linked(Relinked(t, postId, added, removed, now), postId, x)
  {
    var (t1, batch, _) := CollectLinks(t, postId, added, now);
    var all := t1.links + batch;
    UnlinkKeys(all, t1.hashtags, postId, removed);
    if IdOf(t1.hashtags, x).Some? {
      var k :| 0 <= k < |removed| && removed[k] == x;
      assert IdIn(t1.hashtags, removed, IdOf(t1.hashtags, x).value);
    }
  }

  /** A tag neither added nor removed keeps its link, or its lack of one. */
  lemma RelinkedOther(t: TagTables, postId: nat, added: seq<string>, removed: seq<string>, now: Time, x: string)
    requires TablesValid(t) && NoHash(added) && x !in added && x !in removed
    ensures Linked(Relinked(t, postId, added, removed, now), postId, x) <==> Linked(t, postId, x)
  {
    CollectLinksFacts(t, postId, added, now);
    CollectLinksKeepsOthers(t, postId, added, now);
    var (t1, batch, _) := CollectLinks(t, postId, added, now);
    var all := t1.links + batch;
    UnlinkKeys(all, t1.hashtags, postId, removed);
    if IdOf(t1.hashtags, x).Some? {
      var hx := IdOf(t1.hashtags, x).value;
      IdInOnlyOwnTag(t1.hashtags, removed, x);
      assert HasLink(all, postId, hx) <==> HasLink(t.links, postId, hx) by {
        if HasLink(all, postId, hx) {
          var j :| 0 <= j < |all| && LinkKey(all[j]) == (postId, hx);
        }
        if HasLink(t.links, postId, hx) {
          var j :| 0 <= j < |t.links| && LinkKey(t.links[j]) == (postId, hx);
          assert all[j] == t.links[j];
        }
      }
    }
  }

  /**
   * The tag diff of `UpdatePostAsync`: when it succeeds, the post is linked
   * to every tag that only the new content has, to no tag that only the old
   * content has, and exactly as before to every other tag.
   */
  lemma UpdateTagsDiff(t: TagTables, posts: seq<Post>, postId: nat, oldTags: seq<string>, newTags: seq<string>, now: Time)
    requires TablesValid(t) && NoHash(oldTags) && NoHash(newTags)
    requires UpdateTags(t, posts, postId, oldTags, newTags, now).1.None?
    ensures var t' := UpdateTags(t, posts, postId, oldTags, newTags, now).0;
      forall x ::
        && (x in newTags && x !in oldTags ==> Linked(t', postId, x))
        && (x in oldTags && x !in newTags ==> !Linked(t', postId, x))
        && ((x in oldTags <==> x in newTags) ==> (Linked(t', postId, x) <==> Linked(t, postId, x)))
  {
    var common := Intersect(oldTags, newTags);
    if |common| == |newTags| && |common| == |oldTags| {
      SkippedUpdateSameTags(oldTags, newTags);
    } else {
      var added := Except(newTags, common);
      var removed := Except(oldTags, common);
      NoHashAdded(oldTags, newTags);
      var t' := Relinked(t, postId, added, removed, now);
      assert UpdateTags(t, posts, postId, oldTags, newTags, now).0 == t';
      forall x
        ensures && (x in newTags && x !in oldTags ==> Linked(t', postId, x))
                && (x in oldTags && x !in newTags ==> !Linked(t', postId, x))
                && ((x in oldTags <==> x in newTags) ==> (Linked(t', postId, x) <==> Linked(t, postId, x)))
      {
        if x in added {
          assert CollectLinks(t, postId, added, now).2.None?;
          RelinkedAdded(t, postId, added, removed, now, x);
        } else if x in removed {
          RelinkedRemoved(t, postId, added, removed, now, x);
        } else {
          RelinkedOther(t, postId, added, removed, now, x);
        }
      }
    }
  }

  /**
   * A hashtag that only the new content has, with no row yet and longer
   * than the column, makes `UpdatePostAsync` fail: its row cannot be saved.
   */
  lemma UpdateTagsLongTag(t: TagTables, posts: seq<Post>, postId: nat, oldTags: seq<string>, newTags: seq<string>,
                          now: Time, x: string)
    requires TablesValid(t) && NoHash(oldTags) && NoHash(newTags)
    requires x in newTags && x !in oldTags && IdOf(t.hashtags, x).None? && |x| > TagMaxLength
    ensures UpdateTags(t, posts, postId, oldTags, newTags, now).1 == Some(SaveFailed)
  {
    var common := Intersect(oldTags, newTags);
    if |common| == |newTags| && |common| == |oldTags| {
      SkippedUpdateSameTags(oldTags, newTags);
    }
    var added := Except(newTags, common);
    NoHashAdded(oldTags, newTags);
    var k :| 0 <= k < |added| && added[k] == x;
    CollectLinksSucceeds(t, postId, added, now);
  }
}
