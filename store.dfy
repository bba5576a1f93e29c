/**
 * The in-memory store that stands in for the SQL tables, and the read-side
 * queries of the two repositories: the WHERE clauses, the INNER JOIN on the
 * container table, ORDER BY comment_date DESC, and the bulk UPDATE of bake.
 */
module Store {
  import opened Prelude

  /** The `$object` that `extract` fills from a POST and `save` completes. */
  datatype Submission = Submission(
    id: Option<nat>,       // NULL until save sets it to the new comment's id
    postid: nat,           // 0 for every falsy value ("", "0", missing)
    moniker: Bytes,
    author: Bytes,
    email: Bytes,
    website: Bytes,
    content: Bytes,
    authorIp: Bytes,
    referer: Bytes,
    date: nat,             // the "Y-m-d H:i:s" receipt time, as an ordered number
    msg: Option<Bytes>)    // set only by the WordPress save when it refuses

  /** A row of the comment table. */
  datatype CommentRow = CommentRow(
    id: nat,
    postId: nat,
    author: Bytes,
    email: Bytes,
    url: Bytes,
    date: nat,
    content: Bytes,
    authorIp: Bytes,
    approved: bool,
    baked: bool)

  /** The six columns both fetch queries select. */
  datatype FetchedRow = FetchedRow(id: nat, postId: nat, author: Bytes, content: Bytes, date: nat, url: Bytes)

  /** A row of the container table (ID and Moniker columns). */
  datatype Container = Container(id: nat, moniker: Option<Bytes>)

  function Project(r: CommentRow): FetchedRow
  {
    FetchedRow(r.id, r.postId, r.author, r.content, r.date, r.url)
  }

  /** The comment row comment_zero_repository::save and the WordPress save insert. */
  function NewComment(id: nat, postid: nat, s: Submission): CommentRow
  {
    CommentRow(id, postid, s.author, s.email, s.website, s.date, s.content, s.authorIp, true, false)
  }

  /** The key comment_zero_repository::fetch filters on. */
  datatype Address = ById(id: nat) | ByMoniker(moniker: Option<Bytes>)

  /** `$postid !== 0 ? 'comment_post_ID' : 'moniker'`. */
  function AddressOf(postid: nat, moniker: Option<Bytes>): Address
  {
    if postid != 0 then ById(postid) else ByMoniker(moniker)
  }

  /** The key test; by moniker it goes through the join with the container table (a NULL key matches nothing). */
  predicate Addressed(r: CommentRow, containers: seq<Container>, a: Address)
  {
    match a
    case ById(id) => r.postId == id
    case ByMoniker(m) => m.Some? && exists c :: c in containers && c.id == r.postId && c.moniker == m
  }

  /** The whole WHERE clause: key, `comment_approved = 1`, and `is_baked = 0` when recent. */
  predicate Selected(r: CommentRow, containers: seq<Container>, a: Address, recent: bool)
  {
    Addressed(r, containers, a) && r.approved && (!recent || !r.baked)
  }

  /** The selected rows, projected, in table order. */
  function Matching(rows: seq<CommentRow>, containers: seq<Container>, a: Address, recent: bool): (r: seq<FetchedRow>)
    ensures |r| <= |rows|
    ensures forall i :: 0 <= i < |rows| && Selected(rows[i], containers, a, recent) ==> Project(rows[i]) in r
    ensures forall v :: v in r ==> exists i :: 0 <= i < |rows| && Selected(rows[i], containers, a, recent) && Project(rows[i]) == v
  {
    if rows == [] then []
    else
      var rest := Matching(rows[1..], containers, a, recent);
      assert forall i :: 1 <= i < |rows| ==> rows[i] == rows[1..][i - 1];
      (if Selected(rows[0], containers, a, recent) then [Project(rows[0])] else []) + rest
  }

  /** Container ids are the table's primary key. */
  predicate ContainerIdsUnique(cs: seq<Container>)
  {
    forall i, j :: 0 <= i < j < |cs| ==> cs[i].id != cs[j].id
  }

  /** The containers the INNER JOIN pairs a comment with: those with its post id and the moniker. */
  function JoinPartners(cs: seq<Container>, postId: nat, m: Bytes): (r: seq<Container>)
    ensures forall c :: c in r <==> c in cs && c.id == postId && c.moniker == Some(m)
  {
    if cs == [] then []
    else
      assert forall c :: c in cs <==> c == cs[0] || c in cs[1..];
      (if cs[0].id == postId && cs[0].moniker == Some(m) then [cs[0]] else []) + JoinPartners(cs[1..], postId, m)
  }

  /** The moniker fetch as SQL writes it: one result row for each pair of a comment and a container that join. */
  function JoinMatching(rows: seq<CommentRow>, cs: seq<Container>, m: Bytes, recent: bool): seq<FetchedRow>
  {
    if rows == [] then []
    else
      var r := rows[0];
      (if r.approved && (!recent || !r.baked) then seq(|JoinPartners(cs, r.postId, m)|, _ => Project(r)) else [])
      + JoinMatching(rows[1..], cs, m, recent)
  }

  /** Under unique container ids a comment joins at most one container. */
  lemma {:induction false} JoinPartnersAtMostOne(cs: seq<Container>, postId: nat, m: Bytes)
    requires ContainerIdsUnique(cs)
    ensures |JoinPartners(cs, postId, m)| == if exists c :: c in cs && c.id == postId && c.moniker == Some(m) then 1 else 0
  {
    if cs != [] {
      assert forall j :: 1 <= j < |cs| ==> cs[1..][j - 1] == cs[j];
      JoinPartnersAtMostOne(cs[1..], postId, m);
      if cs[0].id == postId {
        forall c | c in cs[1..]
          ensures c.id != postId
        {
          var j :| 0 <= j < |cs[1..]| && cs[1..][j] == c;
          assert cs[j + 1] == c;
        }
      }
      assert forall c :: c in cs <==> c == cs[0] || c in cs[1..];
    }
  }

  /** Under unique container ids the INNER JOIN returns the rows of the semi-join the model uses, each once. */
  lemma {:induction false} InnerJoinIsSemiJoin(rows: seq<CommentRow>, cs: seq<Container>, m: Bytes, recent: bool)
    requires ContainerIdsUnique(cs)
    ensures JoinMatching(rows, cs, m, recent) == Matching(rows, cs, ByMoniker(Some(m)), recent)
  {
    if rows != [] {
      var r := rows[0];
      InnerJoinIsSemiJoin(rows[1..], cs, m, recent);
      JoinPartnersAtMostOne(cs, r.postId, m);
      var n := |JoinPartners(cs, r.postId, m)|;
      var pairs := if r.approved && (!recent || !r.baked) then seq(n, _ => Project(r)) else [];
      assert pairs == if Selected(r, cs, ByMoniker(Some(m)), recent) then [Project(r)] else [] by {
        if n == 1 {
          assert seq(n, _ => Project(r)) == [Project(r)];
        }
      }
    }
  }

  /** The WHERE clause as a test to hand to `Positions`. */
  function SelectedBy(containers: seq<Container>, a: Address, recent: bool): CommentRow -> bool
  {
    r => Selected(r, containers, a, recent)
  }

  /**
   * The WHERE clause is an order-preserving filter: the k-th result is the projection of the
   * k-th selected row of the table, so each selected row appears once and in table order.
   */
  lemma MatchingIsSelection(rows: seq<CommentRow>, containers: seq<Container>, a: Address, recent: bool)
    ensures var idx := Positions(rows, SelectedBy(containers, a, recent), 0);
            var m := Matching(rows, containers, a, recent);
            |m| == |idx| && forall k :: 0 <= k < |idx| ==> m[k] == Project(rows[idx[k]])
  {
    MatchingFrom(rows, containers, a, recent, 0);
    assert rows[0..] == rows;
  }

  lemma {:induction false} MatchingFrom(rows: seq<CommentRow>, containers: seq<Container>, a: Address, recent: bool, from: nat)
    requires from <= |rows|
    ensures var idx := Positions(rows, SelectedBy(containers, a, recent), from);
            var m := Matching(rows[from..], containers, a, recent);
            |m| == |idx| && forall k :: 0 <= k < |idx| ==> m[k] == Project(rows[idx[k]])
    decreases |rows| - from
  {
    if from < |rows| {
      MatchingFrom(rows, containers, a, recent, from + 1);
      assert rows[from..][1..] == rows[from + 1..];
      assert rows[from..][0] == rows[from];
    }
  }

  /** ORDER BY comment_date DESC. */
  predicate NewestFirst(s: seq<FetchedRow>)
  {
    forall i, j :: 0 <= i < j < |s| ==> s[i].date >= s[j].date
  }

  function InsertByDate(x: FetchedRow, s: seq<FetchedRow>): seq<FetchedRow>
  {
    if s == [] || x.date >= s[0].date then [x] + s else [s[0]] + InsertByDate(x, s[1..])
  }

  /** A stable insertion sort, newest first; rows with equal dates keep table order. */
  function SortNewestFirst(s: seq<FetchedRow>): seq<FetchedRow>
  {
    if s == [] then [] else InsertByDate(s[0], SortNewestFirst(s[1..]))
  }

  /** Inserting into a newest-first list keeps it newest first and adds exactly the one row. */
  lemma {:induction false} InsertByDateSorted(x: FetchedRow, s: seq<FetchedRow>)
    requires NewestFirst(s)
    ensures NewestFirst(InsertByDate(x, s))
    ensures multiset(InsertByDate(x, s)) == multiset(s) + multiset{x}
  {
    InsertByDatePermutes(x, s);
    if s == [] || x.date >= s[0].date {
      ConsNewest(x, s);
    } else {
      var t := InsertByDate(x, s[1..]);
      InsertByDateSorted(x, s[1..]);
      HeadIsNewest(s);
      forall j | 0 <= j < |t|
        ensures s[0].date >= t[j].date
      {
        assert t[j] in multiset(s[1..]) + multiset{x} by {
          assert t[j] in multiset(t);
        }
      }
      ConsNewest(s[0], t);
      assert InsertByDate(x, s) == [s[0]] + t;
    }
  }

  /** Inserting adds exactly the one row. */
  lemma {:induction false} InsertByDatePermutes(x: FetchedRow, s: seq<FetchedRow>)
    ensures multiset(InsertByDate(x, s)) == multiset(s) + multiset{x}
  {
    if s != [] && x.date < s[0].date {
      InsertByDatePermutes(x, s[1..]);
      assert s == [s[0]] + s[1..];
    }
  }

  lemma ConsNewest(h: FetchedRow, t: seq<FetchedRow>)
    requires NewestFirst(t)
    requires forall j :: 0 <= j < |t| ==> h.date >= t[j].date
    ensures NewestFirst([h] + t)
  {
    assert forall j :: 1 <= j < |t| + 1 ==> ([h] + t)[j] == t[j - 1];
  }

  /** The first row of a newest-first list is at least as new as every row in it. */
  lemma HeadIsNewest(s: seq<FetchedRow>)
    requires NewestFirst(s) && s != []
    ensures forall y :: y in multiset(s[1..]) ==> s[0].date >= y.date
  {
    forall y | y in multiset(s[1..])
      ensures s[0].date >= y.date
    {
      var k :| 0 <= k < |s[1..]| && s[1..][k] == y;
      assert s[k + 1] == y;
    }
  }

  /** The sort returns a newest-first permutation of its input. */
  lemma {:induction false} SortNewestFirstSorted(s: seq<FetchedRow>)
    ensures NewestFirst(SortNewestFirst(s))
    ensures multiset(SortNewestFirst(s)) == multiset(s)
  {
    if s != [] {
      assert s == [s[0]] + s[1..];
      SortNewestFirstSorted(s[1..]);
      InsertByDateSorted(s[0], SortNewestFirst(s[1..]));
    }
  }

  lemma SortKeepsMembers(s: seq<FetchedRow>)
    ensures NewestFirst(SortNewestFirst(s))
    ensures forall v :: v in SortNewestFirst(s) <==> v in s
  {
    SortNewestFirstSorted(s);
    var r := SortNewestFirst(s);
    assert forall v :: v in r <==> v in multiset(r);
    assert forall v :: v in s <==> v in multiset(s);
  }

  /** comment_zero_repository::fetch. */
  function ZeroFetch(containers: seq<Container>, comments: seq<CommentRow>, postid: nat,
                     moniker: Option<Bytes>, recent: bool): (r: seq<FetchedRow>)
    ensures NewestFirst(r)
    ensures forall i :: 0 <= i < |comments| && Selected(comments[i], containers, AddressOf(postid, moniker), recent)
              ==> Project(comments[i]) in r
    ensures forall v :: v in r ==>
              exists i :: 0 <= i < |comments| && Selected(comments[i], containers, AddressOf(postid, moniker), recent)
                          && Project(comments[i]) == v
    ensures multiset(r) == multiset(Matching(comments, containers, AddressOf(postid, moniker), recent))
  {
    var m := Matching(comments, containers, AddressOf(postid, moniker), recent);
    var r := SortNewestFirst(m);
    SortKeepsMembers(m);
    SortNewestFirstSorted(m);
    r
  }

  /** wordpress_comment_repository::fetch: by comment_post_ID only; moniker and recent are unused. */
  function WordpressFetch(comments: seq<CommentRow>, postid: nat): (r: seq<FetchedRow>)
    ensures NewestFirst(r)
    ensures forall i :: 0 <= i < |comments| && comments[i].postId == postid && comments[i].approved
              ==> Project(comments[i]) in r
    ensures forall v :: v in r ==>
              exists i :: 0 <= i < |comments| && comments[i].postId == postid && comments[i].approved
                          && Project(comments[i]) == v
    ensures multiset(r) == multiset(Matching(comments, [], ById(postid), false))
  {
    var m := Matching(comments, [], ById(postid), false);
    var r := SortNewestFirst(m);
    SortKeepsMembers(m);
    SortNewestFirstSorted(m);
    r
  }

  /** No selected row, no result. */
  lemma {:induction false} MatchingEmpty(rows: seq<CommentRow>, containers: seq<Container>, a: Address, recent: bool)
    requires forall i :: 0 <= i < |rows| ==> !Selected(rows[i], containers, a, recent)
    ensures Matching(rows, containers, a, recent) == []
  {
    if rows != [] {
      assert forall i :: 1 <= i < |rows| ==> rows[1..][i - 1] == rows[i];
      MatchingEmpty(rows[1..], containers, a, recent);
    }
  }

  /** With a non-zero postid no join is made: the container table and the moniker play no part. */
  lemma {:induction false} MatchingById(rows: seq<CommentRow>, c1: seq<Container>, c2: seq<Container>, id: nat, recent: bool)
    ensures Matching(rows, c1, ById(id), recent) == Matching(rows, c2, ById(id), recent)
  {
    if rows != [] {
      MatchingById(rows[1..], c1, c2, id, recent);
    }
  }

  lemma ZeroFetchByIdIgnoresMoniker(c1: seq<Container>, c2: seq<Container>, comments: seq<CommentRow>,
                                    postid: nat, m1: Option<Bytes>, m2: Option<Bytes>, recent: bool)
    requires postid != 0
    ensures ZeroFetch(c1, comments, postid, m1, recent) == ZeroFetch(c2, comments, postid, m2, recent)
  {
    MatchingById(comments, c1, c2, postid, recent);
  }

  /** For a non-zero id and a full read the two repository variants return the same rows. */
  lemma WordpressAgreesWithZeroById(containers: seq<Container>, comments: seq<CommentRow>, postid: nat, moniker: Option<Bytes>)
    requires postid != 0
    ensures WordpressFetch(comments, postid) == ZeroFetch(containers, comments, postid, moniker, false)
  {
    MatchingById(comments, [], containers, postid, false);
  }

  /** UPDATE ... SET is_baked = 1 WHERE comment_post_ID = postid, on one row. */
  function BakeRow(r: CommentRow, postid: nat): CommentRow
  {
    if r.postId == postid then r.(baked := true) else r
  }

  /** bake on the whole comment table. */
  function MarkBaked(rows: seq<CommentRow>, postid: nat): seq<CommentRow>
  {
    if rows == [] then [] else [BakeRow(rows[0], postid)] + MarkBaked(rows[1..], postid)
  }

  /** Every row of the post becomes baked, approved or not; every other row, and every other column, is unchanged. */
  lemma {:induction false} MarkBakedAt(rows: seq<CommentRow>, postid: nat, i: nat)
    requires i < |rows|
    ensures |MarkBaked(rows, postid)| == |rows|
    ensures MarkBaked(rows, postid)[i].baked == (rows[i].baked || rows[i].postId == postid)
    ensures MarkBaked(rows, postid)[i].(baked := rows[i].baked) == rows[i]
  {
    MarkBakedLength(rows, postid);
    if i > 0 {
      MarkBakedAt(rows[1..], postid, i - 1);
    }
  }

  /** Bake changes no column but `baked`, and never clears one. */
  lemma MarkBakedKeepsColumns(rows: seq<CommentRow>, postid: nat)
    ensures |MarkBaked(rows, postid)| == |rows|
    ensures forall i :: 0 <= i < |rows| ==> MarkBaked(rows, postid)[i].(baked := rows[i].baked) == rows[i]
    ensures forall i :: 0 <= i < |rows| && rows[i].baked ==> MarkBaked(rows, postid)[i].baked
  {
    MarkBakedLength(rows, postid);
    forall i | 0 <= i < |rows|
      ensures MarkBaked(rows, postid)[i].(baked := rows[i].baked) == rows[i]
      ensures rows[i].baked ==> MarkBaked(rows, postid)[i].baked
    {
      MarkBakedAt(rows, postid, i);
    }
  }

  lemma {:induction false} MarkBakedLength(rows: seq<CommentRow>, postid: nat)
    ensures |MarkBaked(rows, postid)| == |rows|
  {
    if rows != [] {
      MarkBakedLength(rows[1..], postid);
    }
  }

  /** Baking twice is baking once. */
  lemma {:induction false} BakeIdempotent(rows: seq<CommentRow>, postid: nat)
    ensures MarkBaked(MarkBaked(rows, postid), postid) == MarkBaked(rows, postid)
  {
    if rows != [] {
      BakeIdempotent(rows[1..], postid);
    }
  }

  /** Baking does not change the rows a full (non-recent) read selects. */
  lemma {:induction false} MatchingIgnoresBake(rows: seq<CommentRow>, containers: seq<Container>, a: Address, postid: nat)
    ensures Matching(MarkBaked(rows, postid), containers, a, false) == Matching(rows, containers, a, false)
  {
    if rows != [] {
      MatchingIgnoresBake(rows[1..], containers, a, postid);
    }
  }

  /** The read result a GET returns is the same before and after the bake it triggers. */
  lemma BakePreservesFullRead(containers: seq<Container>, comments: seq<CommentRow>, postid: nat,
                              moniker: Option<Bytes>, p: nat)
    ensures ZeroFetch(containers, MarkBaked(comments, p), postid, moniker, false)
         == ZeroFetch(containers, comments, postid, moniker, false)
  {
    MatchingIgnoresBake(comments, containers, AddressOf(postid, moniker), p);
  }

  /** After bake(p) a recent-only read of post p is empty. */
  lemma NothingRecentAfterBake(containers: seq<Container>, comments: seq<CommentRow>, p: nat, moniker: Option<Bytes>)
    requires p != 0
    ensures ZeroFetch(containers, MarkBaked(comments, p), p, moniker, true) == []
  {
    var baked := MarkBaked(comments, p);
    var r := ZeroFetch(containers, baked, p, moniker, true);
    MarkBakedLength(comments, p);
    if r != [] {
      assert r[0] in r;
      var i :| 0 <= i < |baked| && Selected(baked[i], containers, ById(p), true) && Project(baked[i]) == r[0];
      MarkBakedAt(comments, p, i);
    }
  }
}
