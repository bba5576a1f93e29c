/**
 * The write side of the two repository variants: comment_zero_repository
 * (address resolution by id or moniker, auto-created containers, bake) and
 * wordpress_comment_repository (id only, gated on the post's comment status).
 */
module Repository {
  import opened Prelude
  import opened Store

  // ---------------------------------------------------------------------------
  // comment_zero_repository

  /** The tables comment_zero_repository reads and writes, with their auto-increment counters. */
  datatype ZeroTables = ZeroTables(
    containers: seq<Container>,
    comments: seq<CommentRow>,
    lastContainerId: nat,
    lastCommentId: nat)

  predicate CommentIdsUnique(cs: seq<CommentRow>)
  {
    forall i, j :: 0 <= i < j < |cs| ==> cs[i].id != cs[j].id
  }

  /** Primary keys: unique, positive, and never above the last id the counter issued. */
  predicate Wellformed(t: ZeroTables)
  {
    && ContainerIdsUnique(t.containers)
    && CommentIdsUnique(t.comments)
    && (forall i :: 0 <= i < |t.containers| ==> 0 < t.containers[i].id <= t.lastContainerId)
    && (forall i :: 0 <= i < |t.comments| ==> 0 < t.comments[i].id <= t.lastCommentId)
  }

  /** No two containers carry the same (non-NULL) moniker. */
  predicate MonikersUnique(cs: seq<Container>)
  {
    forall i, j :: 0 <= i < j < |cs| && cs[i].moniker.Some? ==> cs[i].moniker != cs[j].moniker
  }

  /** `$key = $val` of save's lookup: `ID` when the postid is truthy, `Moniker` otherwise. */
  predicate KeyMatches(c: Container, postid: nat, moniker: Bytes)
  {
    if postid != 0 then c.id == postid else c.moniker == Some(moniker)
  }

  /** `SELECT ID, Moniker, AllowComments FROM wp_posts WHERE $key = $val`, in table order. */
  function ContainerLookup(cs: seq<Container>, postid: nat, moniker: Bytes): (r: seq<Container>)
    ensures forall c :: c in r <==> c in cs && KeyMatches(c, postid, moniker)
  {
    if cs == [] then []
    else
      assert forall c :: c in cs <==> c == cs[0] || c in cs[1..];
      (if KeyMatches(cs[0], postid, moniker) then [cs[0]] else []) + ContainerLookup(cs[1..], postid, moniker)
  }

  /** comment_zero_repository::save on the tables: the new tables and the completed `$object`. */
  function ZeroSave(t: ZeroTables, s: Submission): (r: (ZeroTables, Submission))
    ensures t.containers <= r.0.containers && |r.0.containers| <= |t.containers| + 1
    ensures exists c :: c in r.0.containers && c.id == r.1.postid
    ensures r.0.comments == t.comments + [NewComment(t.lastCommentId + 1, r.1.postid, s)]
    ensures r.1 == s.(postid := r.1.postid, id := Some(t.lastCommentId + 1))
  {
    var rows := ContainerLookup(t.containers, s.postid, s.moniker);
    var (containers, lastContainer, postid) :=
      if |rows| == 1 then (t.containers, t.lastContainerId, rows[0].id)
      else (t.containers + [Container(t.lastContainerId + 1, Some(s.moniker))], t.lastContainerId + 1, t.lastContainerId + 1);
    assert rows != [] ==> rows[0] in rows;
    var id := t.lastCommentId + 1;
    (ZeroTables(containers, t.comments + [NewComment(id, postid, s)], lastContainer, id),
     s.(postid := postid, id := Some(id)))
  }

  /** save keeps primary keys unique, positive and within their counters. */
  lemma ZeroSaveKeepsWellformed(t: ZeroTables, s: Submission)
    requires Wellformed(t)
    ensures Wellformed(ZeroSave(t, s).0)
  {
    var rows := ContainerLookup(t.containers, s.postid, s.moniker);
    ZeroSaveResolution(t, s);
    var r := ZeroSave(t, s).0;
    var c := NewComment(t.lastCommentId + 1, ZeroSave(t, s).1.postid, s);
    assert r.comments == t.comments + [c];
    assert forall i :: 0 <= i < |t.comments| ==> r.comments[i] == t.comments[i];
    if |rows| != 1 {
      assert forall i :: 0 <= i < |t.containers| ==> r.containers[i] == t.containers[i];
    }
  }

  /** Exactly one match: its id is used and no container is added; otherwise one container with the moniker is created. */
  lemma ZeroSaveResolution(t: ZeroTables, s: Submission)
    ensures var rows := ContainerLookup(t.containers, s.postid, s.moniker);
            var (t', obj) := ZeroSave(t, s);
            && t'.lastCommentId == t.lastCommentId + 1
            && if |rows| == 1 then t'.containers == t.containers && t'.lastContainerId == t.lastContainerId
                                   && obj.postid == rows[0].id
               else t'.containers == t.containers + [Container(t.lastContainerId + 1, Some(s.moniker))]
                    && t'.lastContainerId == t.lastContainerId + 1 && obj.postid == t.lastContainerId + 1
  {
  }

  lemma {:induction false} LookupAppend(cs: seq<Container>, c: Container, postid: nat, moniker: Bytes)
    ensures ContainerLookup(cs + [c], postid, moniker)
         == ContainerLookup(cs, postid, moniker) + (if KeyMatches(c, postid, moniker) then [c] else [])
  {
    if cs == [] {
      assert [c][1..] == [];
    } else {
      assert (cs + [c])[1..] == cs[1..] + [c];
      LookupAppend(cs[1..], c, postid, moniker);
    }
  }

  lemma {:induction false} LookupEmpty(cs: seq<Container>, postid: nat, moniker: Bytes)
    requires forall j :: 0 <= j < |cs| ==> !KeyMatches(cs[j], postid, moniker)
    ensures ContainerLookup(cs, postid, moniker) == []
  {
    if cs != [] {
      assert forall j :: 1 <= j < |cs| ==> cs[1..][j - 1] == cs[j];
      LookupEmpty(cs[1..], postid, moniker);
    }
  }

  function KeyMatchesBy(postid: nat, moniker: Bytes): Container -> bool
  {
    c => KeyMatches(c, postid, moniker)
  }

  /** The lookup is an order-preserving filter: its k-th row is the k-th container that matches, so each appears once. */
  lemma LookupIsSelection(cs: seq<Container>, postid: nat, moniker: Bytes)
    ensures var idx := Positions(cs, KeyMatchesBy(postid, moniker), 0);
            var r := ContainerLookup(cs, postid, moniker);
            |r| == |idx| && forall k :: 0 <= k < |idx| ==> r[k] == cs[idx[k]]
  {
    LookupFrom(cs, postid, moniker, 0);
    assert cs[0..] == cs;
  }

  lemma {:induction false} LookupFrom(cs: seq<Container>, postid: nat, moniker: Bytes, from: nat)
    requires from <= |cs|
    ensures var idx := Positions(cs, KeyMatchesBy(postid, moniker), from);
            var r := ContainerLookup(cs[from..], postid, moniker);
            |r| == |idx| && forall k :: 0 <= k < |idx| ==> r[k] == cs[idx[k]]
    decreases |cs| - from
  {
    if from < |cs| {
      LookupFrom(cs, postid, moniker, from + 1);
      assert cs[from..][1..] == cs[from + 1..];
      assert cs[from..][0] == cs[from];
    }
  }

  /** Under unique container ids, a lookup by a truthy id finds the one container with that id. */
  lemma {:induction false} LookupUniqueId(cs: seq<Container>, postid: nat, moniker: Bytes, i: nat)
    requires ContainerIdsUnique(cs)
    requires postid != 0 && i < |cs| && cs[i].id == postid
    ensures ContainerLookup(cs, postid, moniker) == [cs[i]]
  {
    assert forall j :: 1 <= j < |cs| ==> cs[1..][j - 1] == cs[j];
    if i == 0 {
      LookupEmpty(cs[1..], postid, moniker);
    } else {
      assert cs[0].id != postid;
      LookupUniqueId(cs[1..], postid, moniker, i - 1);
    }
  }

  /** A save by the id of an existing container files the comment under that id and adds no container. */
  lemma SaveByExistingId(t: ZeroTables, s: Submission, i: nat)
    requires Wellformed(t)
    requires s.postid != 0 && i < |t.containers| && t.containers[i].id == s.postid
    ensures var r := ZeroSave(t, s);
            && r.0.containers == t.containers
            && r.0.lastContainerId == t.lastContainerId
            && r.1.postid == s.postid
            && r.0.comments == t.comments + [NewComment(t.lastCommentId + 1, s.postid, s)]
  {
    LookupUniqueId(t.containers, s.postid, s.moniker, i);
    ZeroSaveResolution(t, s);
  }

  /** Under unique monikers, a moniker lookup finds the one container that carries it. */
  lemma {:induction false} LookupUniqueMoniker(cs: seq<Container>, moniker: Bytes, i: nat)
    requires MonikersUnique(cs)
    requires i < |cs| && cs[i].moniker == Some(moniker)
    ensures ContainerLookup(cs, 0, moniker) == [cs[i]]
  {
    if i == 0 {
      assert forall j :: 1 <= j < |cs| ==> cs[1..][j - 1] == cs[j];
      LookupEmpty(cs[1..], 0, moniker);
    } else {
      assert cs[0].moniker != Some(moniker);
      assert cs[1..][i - 1] == cs[i];
      LookupUniqueMoniker(cs[1..], moniker, i - 1);
    }
  }

  /** Saving by moniker never creates a second container for a moniker. */
  lemma SaveByMonikerKeepsMonikersUnique(t: ZeroTables, s: Submission)
    requires MonikersUnique(t.containers)
    requires s.postid == 0
    ensures MonikersUnique(ZeroSave(t, s).0.containers)
  {
    if i :| 0 <= i < |t.containers| && t.containers[i].moniker == Some(s.moniker) {
      LookupUniqueMoniker(t.containers, s.moniker, i);
    } else {
      LookupEmpty(t.containers, 0, s.moniker);
    }
  }

  /**
   * Saving by an id that matches no container auto-creates one with the submitted moniker,
   * even when a container already carries that moniker.
   */
  lemma UnmatchedIdDuplicatesMoniker(t: ZeroTables, s: Submission, k: nat)
    requires s.postid != 0
    requires forall j :: 0 <= j < |t.containers| ==> t.containers[j].id != s.postid
    requires k < |t.containers| && t.containers[k].moniker == Some(s.moniker)
    ensures !MonikersUnique(ZeroSave(t, s).0.containers)
  {
    LookupEmpty(t.containers, s.postid, s.moniker);
    var cs := ZeroSave(t, s).0.containers;
    assert cs == t.containers + [Container(t.lastContainerId + 1, Some(s.moniker))];
    assert cs[k].moniker == cs[|cs| - 1].moniker;
  }

  /** A save under a moniker no container carries creates the next container for it. */
  lemma SaveByNewMoniker(t: ZeroTables, s: Submission)
    requires s.postid == 0
    requires forall j :: 0 <= j < |t.containers| ==> t.containers[j].moniker != Some(s.moniker)
    ensures var r := ZeroSave(t, s);
            && r.0.containers == t.containers + [Container(t.lastContainerId + 1, Some(s.moniker))]
            && r.0.lastContainerId == t.lastContainerId + 1
            && r.1.postid == t.lastContainerId + 1
            && r.0.lastCommentId == t.lastCommentId + 1
  {
    LookupEmpty(t.containers, 0, s.moniker);
    ZeroSaveResolution(t, s);
  }

  /** A lookup by moniker alone, after one container with that moniker joins a list without it, finds just that one. */
  lemma LookupFindsAppended(cs: seq<Container>, c: Container, m: Bytes)
    requires forall j :: 0 <= j < |cs| ==> cs[j].moniker != Some(m)
    requires c.moniker == Some(m)
    ensures ContainerLookup(cs + [c], 0, m) == [c]
  {
    LookupEmpty(cs, 0, m);
    LookupAppend(cs, c, 0, m);
  }

  /** A save whose lookup finds exactly one container attaches the comment to it and adds no container. */
  lemma SaveByFoundContainer(t: ZeroTables, s: Submission, c: Container)
    requires ContainerLookup(t.containers, s.postid, s.moniker) == [c]
    ensures var r := ZeroSave(t, s);
            && r.0.containers == t.containers
            && r.1.postid == c.id
            && r.0.comments == t.comments + [NewComment(t.lastCommentId + 1, c.id, s)]
  {
    ZeroSaveResolution(t, s);
  }

  /** After appending one container to a list that lacks a moniker, the appended one is the only carrier. */
  lemma OnlyAppendedCarries(cs: seq<Container>, c: Container, m: Bytes)
    requires forall j :: 0 <= j < |cs| ==> cs[j].moniker != Some(m)
    ensures forall j :: 0 <= j < |cs + [c]| && (cs + [c])[j].moniker == Some(m) ==> (cs + [c])[j] == c
  {
    assert forall j :: 0 <= j < |cs| ==> (cs + [c])[j] == cs[j];
  }

  /** Two saves under the same fresh moniker share one new container and both comments attach to it. */
  lemma TwoSavesShareContainer(t: ZeroTables, s1: Submission, s2: Submission)
    requires s1.postid == 0 && s2.postid == 0 && s1.moniker == s2.moniker
    requires forall j :: 0 <= j < |t.containers| ==> t.containers[j].moniker != Some(s1.moniker)
    ensures var r1 := ZeroSave(t, s1);
            var r2 := ZeroSave(r1.0, s2);
            && |r2.0.containers| == |t.containers| + 1
            && r2.1.postid == r1.1.postid
            && (forall j :: 0 <= j < |r2.0.containers| && r2.0.containers[j].moniker == Some(s1.moniker)
                  ==> r2.0.containers[j].id == r1.1.postid)
            && r2.0.comments == t.comments + [NewComment(t.lastCommentId + 1, r1.1.postid, s1),
                                              NewComment(t.lastCommentId + 2, r1.1.postid, s2)]
  {
    var c := Container(t.lastContainerId + 1, Some(s1.moniker));
    SaveByNewMoniker(t, s1);
    var r1 := ZeroSave(t, s1);
    LookupFindsAppended(t.containers, c, s1.moniker);
    SaveByFoundContainer(r1.0, s2, c);
    var r2 := ZeroSave(r1.0, s2);
    OnlyAppendedCarries(t.containers, c, s1.moniker);
    var a := NewComment(t.lastCommentId + 1, c.id, s1);
    var b := NewComment(t.lastCommentId + 2, c.id, s2);
    assert r2.0.comments == (t.comments + [a]) + [b];
    assert (t.comments + [a]) + [b] == t.comments + [a, b];
  }

  // ---------------------------------------------------------------------------
  // wordpress_comment_repository

  /** A row of the posts table: ID and comment_status. */
  datatype Post = Post(id: nat, commentStatus: Bytes)

  /** A row a posts query returns; a column the query did not select reads as NULL. */
  datatype PostRow = PostRow(id: nat, commentStatus: Option<Bytes>)

  predicate PostIdsUnique(ps: seq<Post>)
  {
    forall i, j :: 0 <= i < j < |ps| ==> ps[i].id != ps[j].id
  }

  /** `SELECT ID FROM wp_posts WHERE ID = postid`, as written: comment_status is not selected. */
  function SelectId(ps: seq<Post>, postid: nat): (r: seq<PostRow>)
    ensures |r| <= |ps|
    ensures forall x :: x in r ==> x.id == postid
  {
    if ps == [] then []
    else (if ps[0].id == postid then [PostRow(ps[0].id, None)] else []) + SelectId(ps[1..], postid)
  }

  /** The lookup the gate needs: `SELECT ID, comment_status FROM wp_posts WHERE ID = postid`. */
  function SelectIdAndStatus(ps: seq<Post>, postid: nat): (r: seq<PostRow>)
    ensures |r| <= |ps|
    ensures forall x :: x in r ==> x.id == postid && x.commentStatus.Some?
  {
    if ps == [] then []
    else (if ps[0].id == postid then [PostRow(ps[0].id, Some(ps[0].commentStatus))] else []) + SelectIdAndStatus(ps[1..], postid)
  }

  /** The negation of `count($rows) !== 1 || $rows[0]['comment_status'] !== 'open'`. */
  predicate OpenForComments(rows: seq<PostRow>)
  {
    |rows| == 1 && rows[0].commentStatus == Some(Ascii("open"))
  }

  lemma {:induction false} SelectIdHasNoStatus(ps: seq<Post>, postid: nat)
    ensures forall r :: r in SelectId(ps, postid) ==> r.commentStatus == None
  {
    if ps != [] {
      SelectIdHasNoStatus(ps[1..], postid);
    }
  }

  /** As written, the gate never opens: every WordPress save is refused. */
  lemma WordpressGateNeverOpens(ps: seq<Post>, postid: nat)
    ensures !OpenForComments(SelectId(ps, postid))
  {
    SelectIdHasNoStatus(ps, postid);
    var rows := SelectId(ps, postid);
    if |rows| == 1 {
      assert rows[0] in rows;
    }
  }

  lemma {:induction false} SelectIdAndStatusMatches(ps: seq<Post>, postid: nat)
    ensures forall r :: r in SelectIdAndStatus(ps, postid) <==>
              exists i :: 0 <= i < |ps| && ps[i].id == postid && r == PostRow(postid, Some(ps[i].commentStatus))
  {
    if ps != [] {
      SelectIdAndStatusMatches(ps[1..], postid);
      assert forall i :: 1 <= i < |ps| ==> ps[i] == ps[1..][i - 1];
    }
  }

  lemma {:induction false} SelectIdAndStatusEmpty(ps: seq<Post>, postid: nat)
    requires forall i :: 0 <= i < |ps| ==> ps[i].id != postid
    ensures SelectIdAndStatus(ps, postid) == []
  {
    if ps != [] {
      assert forall i :: 1 <= i < |ps| ==> ps[1..][i - 1] == ps[i];
      SelectIdAndStatusEmpty(ps[1..], postid);
    }
  }

  /** Under unique post ids the lookup returns at most one row. */
  lemma {:induction false} SelectIdAndStatusAtMostOne(ps: seq<Post>, postid: nat)
    requires PostIdsUnique(ps)
    ensures |SelectIdAndStatus(ps, postid)| <= 1
  {
    if ps != [] {
      SelectIdAndStatusAtMostOne(ps[1..], postid);
      if ps[0].id == postid {
        assert forall i :: 1 <= i < |ps| ==> ps[1..][i - 1] == ps[i];
        SelectIdAndStatusEmpty(ps[1..], postid);
      }
    }
  }

  /** With comment_status selected, the gate opens exactly for an existing post whose comments are open. */
  lemma IntendedGateOpensIffOpenPost(ps: seq<Post>, postid: nat)
    requires PostIdsUnique(ps)
    ensures OpenForComments(SelectIdAndStatus(ps, postid)) <==>
            exists i :: 0 <= i < |ps| && ps[i].id == postid && ps[i].commentStatus == Ascii("open")
  {
    SelectIdAndStatusMatches(ps, postid);
    SelectIdAndStatusAtMostOne(ps, postid);
    var rows := SelectIdAndStatus(ps, postid);
    if OpenForComments(rows) {
      assert rows[0] in rows;
    }
    if i :| 0 <= i < |ps| && ps[i].id == postid && ps[i].commentStatus == Ascii("open") {
      assert PostRow(postid, Some(ps[i].commentStatus)) in rows;
      assert rows[0] in rows;
    }
  }

  // ---------------------------------------------------------------------------
  // The repository objects

  /** comment_zero_repository over its two tables. */
  class ZeroRepository {
    var containers: seq<Container>
    var comments: seq<CommentRow>
    var lastContainerId: nat
    var lastCommentId: nat

    function Tables(): ZeroTables
      reads this
    {
      ZeroTables(containers, comments, lastContainerId, lastCommentId)
    }

    predicate Valid()
      reads this
    {
      Wellformed(Tables())
    }

    constructor (t: ZeroTables)
      requires Wellformed(t)
      ensures Valid() && Tables() == t
    {
      containers, comments := t.containers, t.comments;
      lastContainerId, lastCommentId := t.lastContainerId, t.lastCommentId;
    }

    /** bake: mark every comment of the post as baked, one row at a time. */
    method Bake(postid: nat)
      requires Valid()
      modifies this
      ensures Valid()
      ensures comments == MarkBaked(old(comments), postid)
      ensures containers == old(containers)
      ensures lastContainerId == old(lastContainerId) && lastCommentId == old(lastCommentId)
    {
      var i := 0;
      while i < |comments|
        invariant 0 <= i <= |comments| == |old(comments)|
        invariant forall k :: 0 <= k < i ==> comments[k] == BakeRow(old(comments)[k], postid)
        invariant forall k :: i <= k < |comments| ==> comments[k] == old(comments)[k]
        invariant containers == old(containers)
        invariant lastContainerId == old(lastContainerId) && lastCommentId == old(lastCommentId)
      {
        if comments[i].postId == postid {
          comments := comments[i := comments[i].(baked := true)];
        }
        i := i + 1;
      }
      MarkBakedLength(old(comments), postid);
      forall k | 0 <= k < |comments|
        ensures comments[k] == MarkBaked(old(comments), postid)[k]
      {
        MarkBakedAt(old(comments), postid, k);
      }
      MarkBakedLength(old(comments), postid);
    }

    /** save: resolve or create the container, then insert the approved comment. */
    method Save(s: Submission, encode: Submission -> Bytes) returns (obj: Submission, text: Bytes)
      requires Valid()
      modifies this
      ensures Valid()
      ensures (Tables(), obj) == ZeroSave(old(Tables()), s)
      ensures text == encode(obj)
    {
      ghost var t := Tables();
      ZeroSaveResolution(t, s);
      ZeroSaveKeepsWellformed(t, s);
      ghost var r := ZeroSave(t, s);
      obj := s;
      var rows := ContainerLookup(containers, s.postid, s.moniker);
      if |rows| == 1 {
        obj := obj.(postid := rows[0].id);
      } else {
        lastContainerId := lastContainerId + 1;
        containers := containers + [Container(lastContainerId, Some(s.moniker))];
        obj := obj.(postid := lastContainerId);
      }
      assert obj.postid == r.1.postid;
      lastCommentId := lastCommentId + 1;
      comments := comments + [NewComment(lastCommentId, obj.postid, s)];
      obj := obj.(id := Some(lastCommentId));
      assert Tables() == r.0;
      text := encode(obj);
    }
  }

  /** wordpress_comment_repository over the posts and comments tables. */
  class WordpressRepository {
    var posts: seq<Post>
    var comments: seq<CommentRow>
    var lastCommentId: nat

    predicate Valid()
      reads this
    {
      && PostIdsUnique(posts)
      && CommentIdsUnique(comments)
      && (forall i :: 0 <= i < |comments| ==> 0 < comments[i].id <= lastCommentId)
    }

    constructor (ps: seq<Post>, cs: seq<CommentRow>, last: nat)
      requires PostIdsUnique(ps) && CommentIdsUnique(cs)
      requires forall i :: 0 <= i < |cs| ==> 0 < cs[i].id <= last
      ensures Valid() && posts == ps && comments == cs && lastCommentId == last
    {
      posts, comments, lastCommentId := ps, cs, last;
    }

    /** save as written: the lookup selects only ID, so the status test always refuses. */
    method Save(s: Submission, encode: Submission -> Bytes) returns (obj: Submission, text: Bytes)
      ensures obj == s.(msg := Some(Ascii("Error.")))
      ensures text == encode(obj)
    {
      var rows := SelectId(posts, s.postid);
      if |rows| != 1 || rows[0].commentStatus != Some(Ascii("open")) {
        obj := s.(msg := Some(Ascii("Error.")));
        return obj, encode(obj);
      }
      WordpressGateNeverOpens(posts, s.postid);
      assert false;
    }

    /** save with the lookup selecting comment_status, as the gate evidently intends. */
    method SaveChecked(s: Submission, encode: Submission -> Bytes) returns (obj: Submission, text: Bytes)
      requires Valid()
      modifies this
      ensures Valid() && posts == old(posts)
      ensures if exists i :: 0 <= i < |posts| && posts[i].id == s.postid && posts[i].commentStatus == Ascii("open")
              then && lastCommentId == old(lastCommentId) + 1
                   && comments == old(comments) + [NewComment(lastCommentId, s.postid, s)]
                   && obj == s.(id := Some(lastCommentId))
              else && comments == old(comments) && lastCommentId == old(lastCommentId)
                   && obj == s.(msg := Some(Ascii("Error.")))
      ensures text == encode(obj)
    {
      var rows := SelectIdAndStatus(posts, s.postid);
      IntendedGateOpensIffOpenPost(posts, s.postid);
      if |rows| != 1 || rows[0].commentStatus != Some(Ascii("open")) {
        obj := s.(msg := Some(Ascii("Error.")));
        return obj, encode(obj);
      }
      SelectIdAndStatusMatches(posts, s.postid);
      assert rows[0] in rows;
      obj := s.(postid := rows[0].id);
      lastCommentId := lastCommentId + 1;
      comments := comments + [NewComment(lastCommentId, obj.postid, s)];
      obj := obj.(id := Some(lastCommentId));
      text := encode(obj);
    }
  }
}
