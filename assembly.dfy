/**
 * `request_handler::assign` and `assemble`: the rows a fetch returns become the
 * JSON document a GET answers, built one comment at a time.
 */
module Assembly {
  import opened Prelude
  import opened Store

  /** The object `assign` fills from a row; `json_encode` of it is an entry of the document. */
  datatype CommentView = CommentView(id: nat, postid: nat, author: Bytes, date: nat, content: Bytes, url: Bytes)

  /**
   * assign: copy five columns and render the content through Markdown. It sets every
   * property, so the one object `assemble` reuses carries nothing over from the row before.
   */
  function Assign(row: FetchedRow, render: Bytes -> Bytes): (v: CommentView)
    ensures RowOf(v) == row.(content := render(row.content))
  {
    CommentView(row.id, row.postId, row.author, row.date, render(row.content), row.url)
  }

  /** The columns a view carries, read back into a row. */
  function RowOf(v: CommentView): FetchedRow
  {
    FetchedRow(v.id, v.postid, v.author, v.content, v.date, v.url)
  }

  /** The encoded entry of each row, in cursor order. */
  function Entries(rows: seq<FetchedRow>, render: Bytes -> Bytes, encode: CommentView -> Bytes): (es: seq<Bytes>)
    ensures |es| == |rows|
    ensures forall i :: 0 <= i < |rows| ==> es[i] == encode(Assign(rows[i], render))
  {
    seq(|rows|, i requires 0 <= i < |rows| => encode(Assign(rows[i], render)))
  }

  const Comma: Bytes := Ascii(",")

  /** The comma-separated list, as `implode(",", ...)` of all entries at once would write it. */
  function Implode(xs: seq<Bytes>): Bytes
  {
    if xs == [] then [] else if |xs| == 1 then xs[0] else xs[0] + Comma + Implode(xs[1..])
  }

  /** What the `foreach` appends: a comma and then the entry, for each remaining row. */
  function Appended(xs: seq<Bytes>): Bytes
  {
    if xs == [] then [] else Appended(xs[..|xs| - 1]) + Comma + xs[|xs| - 1]
  }

  const PostIdOpen: Bytes := Ascii("{ \"postid\": \"")
  const EnvelopeClose: Bytes := Ascii(" ] }")
  const EmptyDocument: Bytes := Ascii("{ }")

  function EnvelopeOpen(postid: nat): Bytes
  {
    PostIdOpen + Ascii(Decimal(postid)) + Ascii("\", \"comments\": [ ")
  }

  /** The post id `assemble` reports: the first row's, when there is one and it is not 0. */
  function ResolvedPostId(rows: seq<FetchedRow>): Option<nat>
  {
    if rows == [] || rows[0].postId == 0 then None else Some(rows[0].postId)
  }

  /** The document for a result set, defined in one sweep over all entries. */
  function Document(rows: seq<FetchedRow>, render: Bytes -> Bytes, encode: CommentView -> Bytes): (d: Bytes)
    ensures ResolvedPostId(rows).Some? ==>
              && |d| >= |PostIdOpen| + |EnvelopeClose|
              && d[..|PostIdOpen|] == PostIdOpen
              && d[|d| - |EnvelopeClose|..] == EnvelopeClose
  {
    match ResolvedPostId(rows)
    case None => EmptyDocument
    case Some(p) => EnvelopeOpen(p) + Implode(Entries(rows, render, encode)) + EnvelopeClose
  }

  /** assemble: the first entry, then a comma and an entry per further row, then the close. */
  method Assemble(rows: seq<FetchedRow>, render: Bytes -> Bytes, encode: CommentView -> Bytes)
    returns (text: Bytes, postid: Option<nat>)
    ensures text == Document(rows, render, encode)
    ensures postid == ResolvedPostId(rows)
  {
    if |rows| == 0 || rows[0].postId == 0 {
      return EmptyDocument, None;
    }
    var actual := rows[0].postId;
    postid := Some(actual);
    ghost var es := Entries(rows, render, encode);
    var view := Assign(rows[0], render);
    var head := EnvelopeOpen(actual) + encode(view);
    var list: Bytes := [];
    var i := 1;
    while i < |rows|
      invariant 1 <= i <= |rows|
      invariant list == Appended(es[1..i])
    {
      view := Assign(rows[i], render);
      AppendedStep(es, i);
      list := list + Comma + encode(view);
      i := i + 1;
    }
    DocumentIsFirstThenAppended(rows, render, encode);
    text := head + list + EnvelopeClose;
  }

  lemma AppendedStep(xs: seq<Bytes>, i: nat)
    requires 1 <= i < |xs|
    ensures Appended(xs[1..i + 1]) == Appended(xs[1..i]) + Comma + xs[i]
  {
    assert xs[1..i + 1][..i - 1] == xs[1..i];
  }

  /** The document of a non-empty result, written the way assemble builds it. */
  lemma DocumentIsFirstThenAppended(rows: seq<FetchedRow>, render: Bytes -> Bytes, encode: CommentView -> Bytes)
    requires ResolvedPostId(rows).Some?
    ensures Document(rows, render, encode)
         == EnvelopeOpen(rows[0].postId) + encode(Assign(rows[0], render))
            + Appended(Entries(rows, render, encode)[1..|rows|]) + EnvelopeClose
  {
    var es := Entries(rows, render, encode);
    assert es[1..|rows|] == es[1..];
    ImplodeIsFirstThenAppended(es);
  }

  lemma {:induction false} ImplodeSnoc(xs: seq<Bytes>, y: Bytes)
    requires xs != []
    ensures Implode(xs + [y]) == Implode(xs) + Comma + y
  {
    if |xs| == 1 {
      assert (xs + [y])[1..] == [y];
    } else {
      assert (xs + [y])[1..] == xs[1..] + [y];
      ImplodeSnoc(xs[1..], y);
    }
  }

  /** Building the list incrementally gives the text `implode` would give in one sweep. */
  lemma {:induction false} ImplodeIsFirstThenAppended(xs: seq<Bytes>)
    requires xs != []
    ensures Implode(xs) == xs[0] + Appended(xs[1..])
  {
    if |xs| > 1 {
      var init := xs[..|xs| - 1];
      ImplodeIsFirstThenAppended(init);
      assert init[1..] == xs[1..][..|xs[1..]| - 1];
      assert xs == init + [xs[|xs| - 1]];
      ImplodeSnoc(init, xs[|xs| - 1]);
    }
  }

  /** The bare `{ }` is returned exactly when there is no post id to report. */
  lemma EmptyDocumentIff(rows: seq<FetchedRow>, render: Bytes -> Bytes, encode: CommentView -> Bytes)
    ensures Document(rows, render, encode) == EmptyDocument <==> ResolvedPostId(rows).None?
  {
    if ResolvedPostId(rows).Some? {
      assert |Document(rows, render, encode)| >= |PostIdOpen| > |EmptyDocument|;
    }
  }

  /** The post id can be read back from the document: the text between the quotes after `"postid": `. */
  lemma PostIdInDocument(rows: seq<FetchedRow>, render: Bytes -> Bytes, encode: CommentView -> Bytes)
    requires ResolvedPostId(rows).Some?
    ensures TakeUntilQuote(Document(rows, render, encode)[|PostIdOpen|..]) == Ascii(Decimal(rows[0].postId))
  {
    var p := rows[0].postId;
    var digits := Ascii(Decimal(p));
    var middle := Ascii("\", \"comments\": [ ");
    var list := Implode(Entries(rows, render, encode));
    var rest := middle + list + EnvelopeClose;
    assert Document(rows, render, encode) == PostIdOpen + digits + middle + list + EnvelopeClose;
    RegroupTail(PostIdOpen, digits, middle, list, EnvelopeClose);
    AsciiQuoteFree(Decimal(p));
    QuotedAfter(PostIdOpen, Ascii(Decimal(p)), rest);
  }

  /** A single matching comment is the whole list. */
  lemma SingleRowDocument(row: FetchedRow, render: Bytes -> Bytes, encode: CommentView -> Bytes)
    requires row.postId != 0
    ensures Document([row], render, encode) == EnvelopeOpen(row.postId) + encode(Assign(row, render)) + EnvelopeClose
  {
  }

  /** Each further row adds a comma and its entry just before the close. */
  lemma DocumentSnoc(rows: seq<FetchedRow>, row: FetchedRow, render: Bytes -> Bytes, encode: CommentView -> Bytes)
    requires ResolvedPostId(rows).Some?
    ensures Document(rows + [row], render, encode)
         == EnvelopeOpen(rows[0].postId) + Implode(Entries(rows, render, encode)) + Comma
            + encode(Assign(row, render)) + EnvelopeClose
  {
    assert (rows + [row])[0] == rows[0];
    assert Entries(rows + [row], render, encode) == Entries(rows, render, encode) + [encode(Assign(row, render))];
    ImplodeSnoc(Entries(rows, render, encode), encode(Assign(row, render)));
  }
}
