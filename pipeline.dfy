/**
 * `request_handler::execute_get` and `execute_post` over either repository: fetch,
 * assemble and bake for a GET; validate, throttle and save for a POST.
 */
module Pipeline {
  import opened Prelude
  import opened Store
  import opened Repository
  import opened Errors
  import opened Validation
  import opened Assembly

  /** The repository `$this->repo` holds; its methods are dispatched on the class. */
  datatype Backend = Wordpress(wp: WordpressRepository) | CommentZero(zero: ZeroRepository)
  {
    function Store(): object
    {
      match this
      case Wordpress(w) => w
      case CommentZero(z) => z
    }

    predicate Valid()
      reads Store()
    {
      match this
      case Wordpress(w) => w.Valid()
      case CommentZero(z) => z.Valid()
    }
  }

  /**
   * What a request produces: a body echoed with status 200, an error body echoed by
   * `set_error` with status 400 before the script exits, or the fatal error of calling
   * `bake` on a repository that has no such method.
   */
  datatype Outcome = Reply(body: Bytes) | Refused(failure: Failure, body: Bytes) | UndefinedBake

  // ---------------------------------------------------------------------------
  // GET

  /** execute_get on the comment-zero tables: the document and the tables after the bake. */
  function ZeroGet(t: ZeroTables, pid: nat, mid: Option<Bytes>, recent: bool,
                   render: Bytes -> Bytes, encode: CommentView -> Bytes): (r: (ZeroTables, Bytes))
    ensures r.0.containers == t.containers
    ensures r.0.lastContainerId == t.lastContainerId && r.0.lastCommentId == t.lastCommentId
    ensures |r.0.comments| == |t.comments|
    ensures forall i :: 0 <= i < |t.comments| ==> r.0.comments[i].(baked := t.comments[i].baked) == t.comments[i]
    ensures forall i :: 0 <= i < |t.comments| && t.comments[i].baked ==> r.0.comments[i].baked
    ensures recent ==> r.0 == t
  {
    var rows := ZeroFetch(t.containers, t.comments, pid, mid, recent);
    var doc := Document(rows, render, encode);
    match ResolvedPostId(rows)
    case Some(p) =>
      MarkBakedKeepsColumns(t.comments, p);
      if recent then (t, doc) else (t.(comments := MarkBaked(t.comments, p)), doc)
    case None => (t, doc)
  }

  /** execute_get on the WordPress tables, whose repository has no `bake`. */
  function WordpressGet(comments: seq<CommentRow>, pid: nat, recent: bool,
                        render: Bytes -> Bytes, encode: CommentView -> Bytes): (out: Outcome)
    ensures out != UndefinedBake <==> recent || ResolvedPostId(WordpressFetch(comments, pid)).None?
    ensures !out.Refused?
  {
    var rows := WordpressFetch(comments, pid);
    if !recent && ResolvedPostId(rows).Some? then UndefinedBake else Reply(Document(rows, render, encode))
  }

  method ExecuteGet(b: Backend, pid: nat, mid: Option<Bytes>, recent: bool,
                    render: Bytes -> Bytes, encode: CommentView -> Bytes) returns (out: Outcome)
    requires b.Valid()
    modifies b.Store()
    ensures b.Valid()
    ensures b.CommentZero? ==>
              var r := ZeroGet(old(b.zero.Tables()), pid, mid, recent, render, encode);
              b.zero.Tables() == r.0 && out == Reply(r.1)
    ensures b.Wordpress? ==> unchanged(b.wp) && out == WordpressGet(b.wp.comments, pid, recent, render, encode)
  {
    match b
    case CommentZero(z) =>
      var rows := ZeroFetch(z.containers, z.comments, pid, mid, recent);
      var text, postid := Assemble(rows, render, encode);
      if !recent && postid.Some? {
        z.Bake(postid.value);
      }
      out := Reply(text);
    case Wordpress(w) =>
      var rows := WordpressFetch(w.comments, pid);
      var text, postid := Assemble(rows, render, encode);
      if !recent && postid.Some? {
        out := UndefinedBake;
      } else {
        out := Reply(text);
      }
  }

  /** A GET keeps the tables well formed: bake changes only the baked flag. */
  lemma ZeroGetKeepsWellformed(t: ZeroTables, pid: nat, mid: Option<Bytes>, recent: bool,
                               render: Bytes -> Bytes, encode: CommentView -> Bytes)
    requires Wellformed(t)
    ensures Wellformed(ZeroGet(t, pid, mid, recent, render, encode).0)
    ensures ZeroGet(t, pid, mid, recent, render, encode).0.containers == t.containers
  {
    var rows := ZeroFetch(t.containers, t.comments, pid, mid, recent);
    if !recent && ResolvedPostId(rows).Some? {
      var p := ResolvedPostId(rows).value;
      var cs := MarkBaked(t.comments, p);
      MarkBakedLength(t.comments, p);
      forall i | 0 <= i < |cs|
        ensures cs[i].id == t.comments[i].id
      {
        MarkBakedAt(t.comments, p, i);
      }
    }
  }

  /**
   * A full GET asked again returns the same document and leaves the tables as the
   * first one left them: the bake changes the state but not what a full GET shows.
   */
  lemma FullGetIsRepeatable(t: ZeroTables, pid: nat, mid: Option<Bytes>,
                            render: Bytes -> Bytes, encode: CommentView -> Bytes)
    ensures var first := ZeroGet(t, pid, mid, false, render, encode);
            ZeroGet(first.0, pid, mid, false, render, encode) == first
  {
    var rows := ZeroFetch(t.containers, t.comments, pid, mid, false);
    match ResolvedPostId(rows)
    case None =>
    case Some(p) =>
      BakePreservesFullRead(t.containers, t.comments, pid, mid, p);
      BakeIdempotent(t.comments, p);
  }

  /** After a full GET of post `pid`, a recent-only GET of it has nothing left to show. */
  lemma RecentAfterFullGetIsEmpty(t: ZeroTables, pid: nat, mid: Option<Bytes>,
                                  render: Bytes -> Bytes, encode: CommentView -> Bytes)
    requires pid != 0
    ensures var first := ZeroGet(t, pid, mid, false, render, encode);
            ZeroGet(first.0, pid, mid, true, render, encode).1 == EmptyDocument
  {
    var rows := ZeroFetch(t.containers, t.comments, pid, mid, false);
    var first := ZeroGet(t, pid, mid, false, render, encode);
    FetchByIdHasPostId(t.containers, t.comments, pid, mid, false);
    if rows == [] {
      // Nothing is selected by the full read, so nothing by the narrower recent one.
      MatchingEmpty(t.comments, t.containers, ById(pid), true);
    } else {
      assert rows[0] in rows;
      assert first.0.comments == MarkBaked(t.comments, pid);
      NothingRecentAfterBake(t.containers, t.comments, pid, mid);
    }
  }

  /**
   * By moniker the same holds when no two containers share the moniker: then every comment
   * the join selects belongs to the one container, whose post the first row names and bake marks.
   */
  lemma RecentAfterFullGetByMonikerIsEmpty(t: ZeroTables, m: Bytes, render: Bytes -> Bytes, encode: CommentView -> Bytes)
    requires MonikersUnique(t.containers)
    ensures var first := ZeroGet(t, 0, Some(m), false, render, encode);
            ZeroGet(first.0, 0, Some(m), true, render, encode).1 == EmptyDocument
  {
    var rows := ZeroFetch(t.containers, t.comments, 0, Some(m), false);
    var after := if ResolvedPostId(rows).Some? then MarkBaked(t.comments, rows[0].postId) else t.comments;
    assert ZeroGet(t, 0, Some(m), false, render, encode).0 == t.(comments := after);
    RecentByMonikerAfterFullFetch(t.containers, t.comments, m);
    EmptyDocumentIff(ZeroFetch(t.containers, after, 0, Some(m), true), render, encode);
  }

  /** The fetch-level core of the lemma above: the recent fetch after the bake resolves no post id. */
  lemma RecentByMonikerAfterFullFetch(cs: seq<Container>, comments: seq<CommentRow>, m: Bytes)
    requires MonikersUnique(cs)
    ensures var rows := ZeroFetch(cs, comments, 0, Some(m), false);
            var after := if ResolvedPostId(rows).Some? then MarkBaked(comments, rows[0].postId) else comments;
            ResolvedPostId(ZeroFetch(cs, after, 0, Some(m), true)).None?
  {
    var rows := ZeroFetch(cs, comments, 0, Some(m), false);
    if rows == [] {
      NoRecentWithoutFull(cs, comments, 0, Some(m));
    } else {
      assert rows[0] in rows;
      var i0 :| 0 <= i0 < |comments| && Selected(comments[i0], cs, ByMoniker(Some(m)), false)
                 && Project(comments[i0]) == rows[0];
      if rows[0].postId == 0 {
        RecentByMonikerSharesPost(cs, comments, m, i0);
        var later := ZeroFetch(cs, comments, 0, Some(m), true);
        assert later != [] ==> later[0] in later;
      } else {
        RecentByMonikerAfterBake(cs, comments, m, i0);
      }
    }
  }

  /** A recent-only fetch selects a subset of the full one: nothing in full, nothing recent. */
  lemma NoRecentWithoutFull(cs: seq<Container>, comments: seq<CommentRow>, pid: nat, mid: Option<Bytes>)
    requires ZeroFetch(cs, comments, pid, mid, false) == []
    ensures ZeroFetch(cs, comments, pid, mid, true) == []
  {
    var a := AddressOf(pid, mid);
    assert forall i :: 0 <= i < |comments| ==> !Selected(comments[i], cs, a, false);
    MatchingEmpty(comments, cs, a, true);
  }

  /** Under unique monikers every comment a recent moniker fetch returns belongs to the post of any selected comment. */
  lemma RecentByMonikerSharesPost(cs: seq<Container>, comments: seq<CommentRow>, m: Bytes, i0: nat)
    requires MonikersUnique(cs)
    requires i0 < |comments| && Selected(comments[i0], cs, ByMoniker(Some(m)), false)
    ensures forall v :: v in ZeroFetch(cs, comments, 0, Some(m), true) ==> v.postId == comments[i0].postId
  {
    forall v | v in ZeroFetch(cs, comments, 0, Some(m), true)
      ensures v.postId == comments[i0].postId
    {
      var i1 :| 0 <= i1 < |comments| && Selected(comments[i1], cs, ByMoniker(Some(m)), true) && Project(comments[i1]) == v;
      MonikerRowsShareContainer(cs, m, comments[i0], comments[i1]);
    }
  }

  /** Under unique monikers, once the post of a selected comment is baked a recent moniker fetch is empty. */
  lemma RecentByMonikerAfterBake(cs: seq<Container>, comments: seq<CommentRow>, m: Bytes, i0: nat)
    requires MonikersUnique(cs)
    requires i0 < |comments| && Selected(comments[i0], cs, ByMoniker(Some(m)), false)
    ensures ZeroFetch(cs, MarkBaked(comments, comments[i0].postId), 0, Some(m), true) == []
  {
    var p := comments[i0].postId;
    var a := ByMoniker(Some(m));
    var baked := MarkBaked(comments, p);
    MarkBakedLength(comments, p);
    forall i | 0 <= i < |baked|
      ensures !Selected(baked[i], cs, a, true)
    {
      MarkBakedAt(comments, p, i);
      if Addressed(baked[i], cs, a) {
        MonikerRowsShareContainer(cs, m, comments[i0], baked[i]);
      }
    }
    MatchingEmpty(baked, cs, a, true);
  }

  /** Under unique monikers, two comments the moniker join selects belong to the same post. */
  lemma MonikerRowsShareContainer(cs: seq<Container>, m: Bytes, r1: CommentRow, r2: CommentRow)
    requires MonikersUnique(cs)
    requires Addressed(r1, cs, ByMoniker(Some(m))) && Addressed(r2, cs, ByMoniker(Some(m)))
    ensures r1.postId == r2.postId
  {
    var c1 :| c1 in cs && c1.id == r1.postId && c1.moniker == Some(m);
    var c2 :| c2 in cs && c2.id == r2.postId && c2.moniker == Some(m);
    var i :| 0 <= i < |cs| && cs[i] == c1;
    var j :| 0 <= j < |cs| && cs[j] == c2;
    if i < j {
      assert cs[i].moniker == cs[j].moniker;
    } else if j < i {
      assert cs[j].moniker == cs[i].moniker;
    }
  }

  /** Fetching by a non-zero id returns only that post's comments. */
  lemma FetchByIdHasPostId(containers: seq<Container>, comments: seq<CommentRow>, pid: nat,
                           mid: Option<Bytes>, recent: bool)
    requires pid != 0
    ensures forall v :: v in ZeroFetch(containers, comments, pid, mid, recent) ==> v.postId == pid
  {
  }

  /**
   * With the WordPress repository a full GET that finds an approved comment ends in the
   * fatal error of the missing `bake`, and only that GET.
   */
  lemma WordpressFullGetFails(comments: seq<CommentRow>, pid: nat, render: Bytes -> Bytes, encode: CommentView -> Bytes)
    requires pid != 0
    ensures WordpressGet(comments, pid, false, render, encode) == UndefinedBake
            <==> exists i :: 0 <= i < |comments| && comments[i].postId == pid && comments[i].approved
  {
    WordpressFetchResolves(comments, pid);
  }

  /** The WordPress fetch by a non-zero id resolves a post id exactly when the post has an approved comment. */
  lemma WordpressFetchResolves(comments: seq<CommentRow>, pid: nat)
    requires pid != 0
    ensures ResolvedPostId(WordpressFetch(comments, pid)).Some?
            <==> exists i :: 0 <= i < |comments| && comments[i].postId == pid && comments[i].approved
  {
    var rows := WordpressFetch(comments, pid);
    if exists i :: 0 <= i < |comments| && comments[i].postId == pid && comments[i].approved {
      var i :| 0 <= i < |comments| && comments[i].postId == pid && comments[i].approved;
      assert Project(comments[i]) in rows;
      assert rows[0] in rows;
    } else {
      WordpressFetchEmpty(comments, pid);
    }
  }

  /** With no approved comment of the post, the WordPress fetch is empty. */
  lemma WordpressFetchEmpty(comments: seq<CommentRow>, pid: nat)
    requires forall i :: 0 <= i < |comments| ==> !(comments[i].postId == pid && comments[i].approved)
    ensures WordpressFetch(comments, pid) == []
  {
    MatchingEmpty(comments, [], ById(pid), false);
  }

  // ---------------------------------------------------------------------------
  // POST

  /** The error `execute_post` reports when the throttle asks the caller to wait. */
  function ThrottleFailure(wait: nat): Failure
  {
    Failure(ActionThrottled, "comment", Decimal(wait) + " seconds")
  }

  /** validate, then the throttle: the first refusal of the two, if any. */
  function Admission(s: Submission, isUrl: Bytes -> bool, isEmail: Bytes -> bool, wait: int): (r: Option<Failure>)
    ensures r.None? <==> (forall k :: 0 <= k < RuleCount ==> Passes(k, s, isUrl, isEmail)) && wait <= 0
    ensures Validate(s, isUrl, isEmail).Some? ==> r == Validate(s, isUrl, isEmail)
    ensures Validate(s, isUrl, isEmail).None? && wait > 0 ==> r == Some(ThrottleFailure(wait))
  {
    match Validate(s, isUrl, isEmail)
    case Some(f) => Some(f)
    case None => if wait > 0 then Some(ThrottleFailure(wait)) else None
  }

  /** The throttle's refusal tells the user how long to wait. */
  lemma ThrottleMessage(wait: nat)
    ensures Message(ThrottleFailure(wait))
         == "You are attempting to comment too quickly! Please wait " + Decimal(wait) + " seconds and try again."
  {
    var d := Decimal(wait);
    ThrottledMessage("comment", d + " seconds");
    ThrottleText();
    SecondsText();
    ThrottleRegroup("You are attempting to ", "comment", " too quickly! Please wait ", d, " seconds", " and try again.");
  }

  lemma ThrottleRegroup(a: string, b: string, c: string, d: string, e: string, f: string)
    ensures a + b + c + (d + e) + f == (a + b + c) + d + (e + f)
  {
  }

  lemma SecondsText()
    ensures " seconds" + " and try again." == " seconds and try again."
  {
  }

  lemma ThrottleText()
    ensures "You are attempting to " + "comment" + " too quickly! Please wait "
         == "You are attempting to comment too quickly! Please wait "
  {
  }

  method ExecutePost(b: Backend, s: Submission, isUrl: Bytes -> bool, isEmail: Bytes -> bool, wait: int,
                     encode: Submission -> Bytes) returns (out: Outcome)
    requires b.Valid()
    modifies b.Store()
    ensures b.Valid()
    ensures Admission(s, isUrl, isEmail, wait).Some? ==>
              var f := Admission(s, isUrl, isEmail, wait).value;
              out == Refused(f, ErrorBody(f)) && unchanged(b.Store())
    ensures Admission(s, isUrl, isEmail, wait).None? && b.CommentZero? ==>
              var r := ZeroSave(old(b.zero.Tables()), s);
              b.zero.Tables() == r.0 && out == Reply(encode(r.1))
    ensures Admission(s, isUrl, isEmail, wait).None? && b.Wordpress? ==>
              && b.wp.posts == old(b.wp.posts)
              && if exists i :: 0 <= i < |b.wp.posts| && b.wp.posts[i].id == s.postid
                                 && b.wp.posts[i].commentStatus == Ascii("open")
                 then && b.wp.lastCommentId == old(b.wp.lastCommentId) + 1
                      && b.wp.comments == old(b.wp.comments) + [NewComment(b.wp.lastCommentId, s.postid, s)]
                      && out == Reply(encode(s.(id := Some(b.wp.lastCommentId))))
                 else && b.wp.comments == old(b.wp.comments) && b.wp.lastCommentId == old(b.wp.lastCommentId)
                      && out == Reply(encode(s.(msg := Some(Ascii("Error.")))))
  {
    var refusal := Validate(s, isUrl, isEmail);
    if refusal.Some? {
      return Refused(refusal.value, ErrorBody(refusal.value));
    }
    if wait > 0 {
      var f := ThrottleFailure(wait);
      return Refused(f, ErrorBody(f));
    }
    match b
    case CommentZero(z) =>
      var obj, text := z.Save(s, encode);
      out := Reply(text);
    case Wordpress(w) =>
      var obj, text := w.SaveChecked(s, encode);
      out := Reply(text);
  }

  /** A refused POST names its field in the body, for every rule and for the throttle. */
  lemma RefusalNamesField(s: Submission, isUrl: Bytes -> bool, isEmail: Bytes -> bool, wait: int)
    requires Admission(s, isUrl, isEmail, wait).Some?
    ensures var f := Admission(s, isUrl, isEmail, wait).value;
            FieldOf(ErrorBody(f)) == Ascii(f.field)
  {
    var f := Admission(s, isUrl, isEmail, wait).value;
    if Validate(s, isUrl, isEmail).Some? {
      var k := ReportedRule(s, isUrl, isEmail);
      RuleFieldsQuoteFree(k);
      assert f == RuleFailure(k);
    } else {
      assert f.field == "comment";
    }
    FieldOfErrorBody(f);
  }

  // ---------------------------------------------------------------------------
  // A comment posted by moniker to an empty store and read back

  function Fresh(): ZeroTables
  {
    ZeroTables([], [], 0, 0)
  }

  /**
   * Posting the first comment for a new moniker creates container 1, and a full GET by
   * that moniker shows exactly that comment under post id 1 and marks it baked.
   */
  lemma PostThenGet(s: Submission, render: Bytes -> Bytes, encode: CommentView -> Bytes)
    requires s.postid == 0
    ensures var saved := ZeroSave(Fresh(), s);
            var row := NewComment(1, 1, s);
            && saved.0 == ZeroTables([Container(1, Some(s.moniker))], [row], 1, 1)
            && ZeroGet(saved.0, 0, Some(s.moniker), false, render, encode)
               == (saved.0.(comments := [row.(baked := true)]),
                   EnvelopeOpen(1) + encode(Assign(Project(row), render)) + EnvelopeClose)
  {
    var saved := ZeroSave(Fresh(), s);
    var row := NewComment(1, 1, s);
    assert ContainerLookup([], 0, s.moniker) == [];
    var t := ZeroTables([Container(1, Some(s.moniker))], [row], 1, 1);
    assert saved.0 == t;
    assert Selected(row, t.containers, ByMoniker(Some(s.moniker)), false) by {
      assert t.containers[0] in t.containers;
    }
    var m := Matching([row], t.containers, ByMoniker(Some(s.moniker)), false);
    assert m == [Project(row)] by {
      assert [row][1..] == [];
    }
    assert SortNewestFirst(m) == m by {
      assert m[1..] == [];
    }
    SingleRowDocument(Project(row), render, encode);
    assert MarkBaked([row], 1) == [row.(baked := true)] by {
      assert [row][1..] == [];
    }
  }
}
