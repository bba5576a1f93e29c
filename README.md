# comment-zero: the request pipeline and the two comment repositories

This project models the core of comment-zero, a comments back end for a headless CMS.

- **GET**: `request_handler::execute_get` fetches the approved comments of one content item, addressed either by numeric post id or by moniker. `assemble` turns them into a JSON document, one entry at a time. When the deployment does not ask for "recent only", the handler then marks the whole post as *baked*.
- **POST**: `execute_post` checks the submission with `validate`, consults the throttle, and hands the comment to the repository's `save`.
- **Repositories**: there are two.
  - `comment_zero_repository` resolves a post by id or by moniker and auto-creates a container when the lookup does not find exactly one.
  - `wordpress_comment_repository` addresses by id only, and gates saving on the post's comment status.

The model is built as follows:

- **Tables**: the SQL tables are sequences of rows held in the fields of two classes, `Repository.ZeroRepository` and `Repository.WordpressRepository`.
  - Their queries are functions over those rows: `Store.ZeroFetch`, `Store.WordpressFetch`, `Store.MarkBaked` and `Repository.ZeroSave`.
  - `ZeroRepository.Bake` and `ZeroRepository.Save`, which change the tables, are proved against those functions. `WordpressRepository.Save` and `SaveChecked` state the new tables directly in their contracts.
- **Strings**: PHP strings are byte sequences (`Prelude.Bytes`), so `strlen` is the sequence length.
- **Dates**: dates are natural numbers ordered like the `Y-m-d H:i:s` text they stand for.
- **Falsy ids**: post ids are natural numbers, and 0 stands for a falsy id where the code tests for falsiness: `execute_get`'s `if(!$pid) $pid = 0` and `comment_zero_repository::save`'s choice between `ID` and `Moniker`. The WordPress save makes no such test (see "## Left out").
- **Repository dispatch**: which repository `$this->repo` holds is the datatype `Pipeline.Backend`.
- **Request outcomes**: what a request ends with is `Pipeline.Outcome`. It is one of:
  - a body echoed after status 200;
  - an error body echoed by `set_error` before the script exits;
  - the fatal error of calling `bake` on the WordPress repository, which has no such method.
- **Foreign code as parameters**: `render` for Markdown, `encode` for `json_encode`, the `filter_var` URL and e-mail validators, and the throttle's wait.
- **`sprintf` is modelled**: `Errors.Format` covers the `%s` and `%d` conversions the `Errors` templates use. As a result, the content-length error, whose second argument is the string `"20,000"`, reads "20 character maximum", while the limit it enforces is 50000 (`Errors.ContentTooLongMessage`).
- **Behaviour taken from the code as it stands**:
  - `bake` marks every comment of the post, approved or not: its UPDATE filters on `comment_post_ID` alone (dist/lib/comment-zero-repo.php:177).
  - The WordPress gate compares the post's `comment_status` with 'open' (dist/lib/comment-zero-repo.php:91).
  - `assemble` answers `{ }` also when the first row's post id is 0, because it tests the id for falsiness (src/php/lib/comment-zero.php:176-178).
  - A save by an id that matches nothing auto-creates a container under the submitted moniker, even when that moniker already has one. Monikers therefore stay unique only across saves by moniker (`Repository.SaveByMonikerKeepsMonikersUnique`, `Repository.UnmatchedIdDuplicatesMoniker`).
- **Three oddities of the code are kept**:
  - for content over 50000 bytes `set_error` passes the string '20,000' (src/php/lib/comment-zero.php:228), which `%d` renders as 20, so the message reads "20 character maximum";
  - `save` auto-creates whenever the lookup count is not exactly 1;
  - the deployed `go` installs the WordPress repository and `internal.php` passes `recent = false`, so a GET that finds comments reaches `bake` on it (`Pipeline.WordpressFullGetFails`).
- **One container table and one comment table**: `comment_zero_repository` looks posts up in `wp_posts` and writes `zero_container`, and fetches from `wp_comments` while inserting into `zero_comments`. The model uses one container table and one comment table for each pair, as the repository evidently means.

## Model

| member | source | states |
|---|---|---|
| Prelude.Decimal | src/php/lib/comment-zero.php:181 | the text PHP writes for a non-negative id is non-empty, all decimal digits, and one digit exactly when the number is below 10 |
| Prelude.DecimalRoundTrip | src/php/lib/comment-zero.php:181 | reading the written digits back gives the number: writing the post id into the envelope loses nothing |
| Prelude.TakeUntilQuoteOf | src/php/lib/comment-zero.php:256 | a quote-free text followed by a double quote is exactly what is read up to the first quote |
| Store.Matching | dist/lib/comment-zero-repo.php:151-159 | the WHERE clause keeps exactly the projections of the rows that are addressed, approved, and (when recent) not baked, never more rows than the table has |
| Store.MatchingIsSelection | dist/lib/comment-zero-repo.php:151-159 | the WHERE clause is an order-preserving filter: the k-th result row is the projection of the k-th selected comment, so each selected comment appears exactly once and in table order |
| Store.InnerJoinIsSemiJoin | dist/lib/comment-zero-repo.php:147-155 | under unique container ids the INNER JOIN on the container table, one row per joining pair, returns exactly the rows of the semi-join the fetch is modelled with |
| Store.InsertByDateSorted | dist/lib/comment-zero-repo.php:159 | inserting one row into a newest-first list keeps it newest first and adds exactly that row |
| Store.SortNewestFirstSorted | dist/lib/comment-zero-repo.php:159 | ORDER BY comment_date DESC returns a newest-first permutation of the selected rows |
| Store.ZeroFetch | dist/lib/comment-zero-repo.php:143-167 | the fetch is newest first, is a permutation of the WHERE clause's result `Store.Matching` (so each selected comment appears once, by `Store.MatchingIsSelection`), and contains a row exactly when it is approved, addressed by id when the postid is non-zero and through the container join by moniker otherwise, and unbaked when recent |
| Store.WordpressFetch | dist/lib/comment-zero-repo.php:64-80 | the WordPress fetch is newest first, is a permutation of the WHERE clause's result `Store.Matching` (each selected comment once), and contains exactly the approved rows of that post id; the moniker and recent arguments play no part |
| Store.MatchingEmpty | dist/lib/comment-zero-repo.php:151-159 | when no row satisfies the WHERE clause the result is empty |
| Store.MatchingById | dist/lib/comment-zero-repo.php:145-147 | with a non-zero postid no join is made: the container table does not affect the result |
| Store.ZeroFetchByIdIgnoresMoniker | dist/lib/comment-zero-repo.php:145-147 | with a non-zero postid neither the moniker nor the containers change the fetch |
| Store.WordpressAgreesWithZeroById | dist/lib/comment-zero-repo.php:64-80 | for a non-zero id and a full read both repositories return the same rows in the same order |
| Store.MarkBakedAt | dist/lib/comment-zero-repo.php:175-180 | bake marks every row of the post, approved or not, and changes no other row and no other column |
| Store.BakeIdempotent | dist/lib/comment-zero-repo.php:175-180 | baking twice leaves the table as baking once |
| Store.MatchingIgnoresBake | dist/lib/comment-zero-repo.php:151-159 | the rows a full read selects do not depend on the bake flags |
| Store.BakePreservesFullRead | src/php/lib/comment-zero.php:83-87 | the rows a full GET returns are the same before and after any bake |
| Store.NothingRecentAfterBake | dist/lib/comment-zero-repo.php:148 | after bake of post p a recent-only fetch of p is empty |
| Repository.ContainerLookup | dist/lib/comment-zero-repo.php:190-199 | save's lookup finds exactly the containers whose ID equals a truthy postid, or whose Moniker equals the moniker when the postid is falsy |
| Repository.ZeroSave | dist/lib/comment-zero-repo.php:188-237 | save adds at most one container and keeps the existing ones, appends exactly one approved unbaked comment with the next id under a postid that names an existing container, and returns the object with that postid and id |
| Repository.ZeroSaveKeepsWellformed | dist/lib/comment-zero-repo.php:188-237 | save keeps primary keys unique, positive and within their counters, so the tables stay well formed |
| Repository.ZeroSaveResolution | dist/lib/comment-zero-repo.php:201-212 | exactly one lookup match: its id is used and no container is added; any other count: one container with the next id and the submitted moniker is created and used |
| Repository.LookupIsSelection | dist/lib/comment-zero-repo.php:190-199 | the lookup is an order-preserving filter of the container table: its k-th row is the k-th matching container, so `count($rows)` is the number of matching containers |
| Repository.LookupUniqueId | dist/lib/comment-zero-repo.php:190-199 | under unique container ids a lookup by a truthy id returns the one container with that id |
| Repository.SaveByExistingId | dist/lib/comment-zero-repo.php:190-212 | on well-formed tables a save by the id of an existing container keeps the containers and files the comment under that id |
| Repository.LookupUniqueMoniker | dist/lib/comment-zero-repo.php:190-199 | under unique monikers, a lookup by moniker returns the one container carrying it |
| Repository.SaveByMonikerKeepsMonikersUnique | dist/lib/comment-zero-repo.php:201-212 | a save by moniker never gives two containers one moniker |
| Repository.UnmatchedIdDuplicatesMoniker | dist/lib/comment-zero-repo.php:190-212 | a save by an id that matches no container creates a second container for a moniker that already has one |
| Repository.SaveByNewMoniker | dist/lib/comment-zero-repo.php:201-212 | a save by a moniker no container carries appends one container with the next container id and that moniker, and files the comment under it |
| Repository.SaveByFoundContainer | dist/lib/comment-zero-repo.php:201-212 | a save whose lookup finds exactly one container files the comment under that container and adds none |
| Repository.TwoSavesShareContainer | dist/lib/comment-zero-repo.php:188-237 | two saves under the same new moniker create one container, and both comments attach to it with consecutive ids |
| Repository.SelectId | dist/lib/comment-zero-repo.php:88-89 | the as-written lookup returns only rows with the requested ID and no more rows than the table has; the lemmas below relate it to the gate |
| Repository.SelectIdAndStatus | dist/lib/comment-zero-repo.php:88-89 | the corrected lookup returns only rows with the requested ID, each carrying its status, and no more rows than the table has |
| Repository.SelectIdHasNoStatus | dist/lib/comment-zero-repo.php:88-89 | the WordPress lookup selects only ID, so no row it returns carries a comment status |
| Repository.WordpressGateNeverOpens | dist/lib/comment-zero-repo.php:88-94 | the WordPress gate as written refuses every post |
| Repository.SelectIdAndStatusMatches | dist/lib/comment-zero-repo.php:88 | a lookup that also selects the status returns exactly the posts with that id, with their status |
| Repository.SelectIdAndStatusAtMostOne | dist/lib/comment-zero-repo.php:88-91 | under unique post ids that lookup returns at most one row |
| Repository.IntendedGateOpensIffOpenPost | dist/lib/comment-zero-repo.php:91 | with the status selected, the gate opens exactly when a post with that id is open for comments |
| Repository.ZeroRepository.constructor | dist/lib/comment-zero-repo.php:131-135 | a repository over well-formed tables is valid and holds those tables |
| Repository.ZeroRepository.Bake | dist/lib/comment-zero-repo.php:175-180 | the row-by-row update leaves the comment table as the bake function says, keeps it valid, and changes nothing else |
| Repository.ZeroRepository.Save | dist/lib/comment-zero-repo.php:188-237 | the lookup, optional container insert and comment insert leave the tables and the object as the save function says, keep the repository valid, and return the encoded object |
| Repository.WordpressRepository.constructor | dist/lib/comment-zero-repo.php:52-56 | a repository over tables with unique ids is valid and holds those tables |
| Repository.WordpressRepository.Save | dist/lib/comment-zero-repo.php:86-121 | as written, save returns the submission with msg 'Error.' for every input and inserts nothing |
| Repository.WordpressRepository.SaveChecked | dist/lib/comment-zero-repo.php:86-121 | with the status selected: an open post gets exactly one new approved comment with the next id, and the object gets that id; otherwise nothing changes and msg is 'Error.' |
| Errors.LeadingIntOfDecimal | src/php/lib/comment-zero.php:254 | `%d` of a number written in decimal gives that number |
| Errors.FormatLiteral | src/php/lib/comment-zero.php:254 | sprintf copies text without conversions unchanged |
| Errors.FormatTwo | src/php/lib/comment-zero.php:254 | a template with a `%s` and then a `%s` or `%d` becomes its text with the two arguments substituted in order |
| Errors.TooLongMessage | src/php/lib/comment-zero.php:286 | the length message names the field and the numeric prefix of the limit argument |
| Errors.TooLongMessageOfNumber | src/php/lib/comment-zero.php:286 | a limit given as a plain number appears unchanged in the length message |
| Errors.ContentTooLongMessage | src/php/lib/comment-zero.php:227-228 | the content-length message says "20 character maximum" |
| Errors.EmptyMessage | src/php/lib/comment-zero.php:285 | the empty-field message names the field twice |
| Errors.InvalidMessage | src/php/lib/comment-zero.php:288 | the invalid-field message names the field and what it should be |
| Errors.ThrottledMessage | src/php/lib/comment-zero.php:289 | the throttle message names the action and the wait |
| Errors.ErrorBody | src/php/lib/comment-zero.php:252-258 | `set_error`'s payload: the field and message spliced unescaped between the literal pieces of line 256; it opens with `{ "field": "`, closes with `", "status": "error" }` and is at least as long as the field and the message together |
| Errors.FieldOfErrorBody | src/php/lib/comment-zero.php:252-258 | the field of an error body can be read back from it, whatever the message contains |
| Errors.MessageOfErrorBody | src/php/lib/comment-zero.php:256 | with a quote-free field and message, the bytes after the field, its closing quote and `, "error": "` up to the next quote are the message itself |
| Validation.Validate | src/php/lib/comment-zero.php:201-232 | validate accepts exactly when all seven rules hold |
| Validation.FirstBrokenIsReported | src/php/lib/comment-zero.php:201-232 | when rule k is the first broken one, its failure is the one reported, whatever later rules also break |
| Validation.ReportedRule | src/php/lib/comment-zero.php:201-232 | every refusal is the failure of the first broken rule |
| Assembly.Assign | src/php/lib/comment-zero.php:152-161 | the view carries the row's id, post id, author, date and url unchanged and its content rendered, and nothing else |
| Assembly.Document | src/php/lib/comment-zero.php:172-193 | the one-sweep document `assemble` is proved against: with a resolved post id it opens with `{ "postid": "` and ends with ` ] }` |
| Assembly.Assemble | src/php/lib/comment-zero.php:172-193 | the incremental assembly produces the document of all rows and reports the first row's post id when it is not 0 |
| Assembly.ImplodeSnoc | src/php/lib/comment-zero.php:186-189 | each further entry adds a comma and the entry at the end of the list |
| Assembly.ImplodeIsFirstThenAppended | src/php/lib/comment-zero.php:165-193 | the first entry followed by a comma and an entry for each further row is the comma-joined list of all entries, as one sweep would write it |
| Assembly.EmptyDocumentIff | src/php/lib/comment-zero.php:174-178 | the answer is `{ }` exactly when there is no first row or its post id is 0 |
| Assembly.PostIdInDocument | src/php/lib/comment-zero.php:181 | the text between the quotes after `"postid": ` is the decimal post id of the first row |
| Assembly.SingleRowDocument | src/php/lib/comment-zero.php:181-191 | a single row gives the envelope around its one entry |
| Assembly.DocumentSnoc | src/php/lib/comment-zero.php:186-191 | one more row adds a comma and its entry just before the closing bracket |
| Pipeline.ZeroGet | src/php/lib/comment-zero.php:71-89 | execute_get on the comment-zero tables: only the bake flags may change, and only from unbaked to baked; every comment keeps all its other columns and its place, the containers and counters stay, and a recent-only GET changes nothing |
| Pipeline.WordpressGet | src/php/lib/comment-zero.php:71-89 | execute_get on the WordPress tables: it ends in the missing-bake error exactly when the GET is a full one and resolves a post id, and it never refuses |
| Pipeline.ExecuteGet | src/php/lib/comment-zero.php:71-89 | a GET answers the document of the fetch. On the comment-zero tables, a full GET that resolves a post id then bakes that post. On the WordPress tables, that same case ends in the missing-method error and nothing changes |
| Pipeline.ZeroGetKeepsWellformed | src/php/lib/comment-zero.php:87 | a GET keeps the tables well formed and the containers unchanged |
| Pipeline.FullGetIsRepeatable | src/php/lib/comment-zero.php:83-87 | a second full GET returns the same document and leaves the tables as the first left them |
| Pipeline.RecentAfterFullGetIsEmpty | src/php/lib/comment-zero.php:87 | after a full GET of a post id, a recent-only GET of it answers `{ }` |
| Pipeline.RecentAfterFullGetByMonikerIsEmpty | src/php/lib/comment-zero.php:83-87 | when no two containers share a moniker, after a full GET by moniker a recent-only GET by it answers `{ }` |
| Pipeline.FetchByIdHasPostId | dist/lib/comment-zero-repo.php:145-156 | a fetch by a non-zero id returns only comments of that post |
| Pipeline.WordpressFullGetFails | src/php/lib/comment-zero.php:35-37 | with the WordPress repository a full GET ends in the missing-bake error exactly when the post has an approved comment |
| Pipeline.Admission | src/php/lib/comment-zero.php:101-117 | a POST passes exactly when all rules hold and the wait is not positive; a validation refusal wins over the throttle |
| Pipeline.ThrottleMessage | src/php/lib/comment-zero.php:114-115 | the throttle refusal tells the user to wait the given number of seconds |
| Pipeline.ExecutePost | src/php/lib/comment-zero.php:97-121 | a refused POST echoes its error body and changes nothing; an admitted one answers what the repository's save returns, with the tables as that save leaves them |
| Pipeline.RefusalNamesField | src/php/lib/comment-zero.php:252-258 | every refusal body names the field of the failure |
| Pipeline.PostThenGet | src/php/lib/comment-zero.php:71-121 | the first comment posted under a new moniker creates container 1. A full GET by that moniker then answers the envelope for post id 1 around that comment alone, and marks it baked |

## Left out

- Repository.WordpressRepository.Save / SaveChecked: an empty or missing postid reaches the lookup as `""`, making `SELECT ID FROM wp_posts WHERE ID = ` invalid SQL. PDO's exception mode throws a `\PDOException`, but the `catch(PDOException $ex)` of `go` (src/php/lib/comment-zero.php:41) sits in `namespace CommentZero` and names `CommentZero\PDOException`, so it never matches: the request ends in an uncaught-exception fatal error, and neither `respond(500)` nor the echo of the message runs. The model folds this case into postid 0 and so into the `'Error.'` refusal, which the source gives only for the text `"0"`.
- Database access is not modelled: `connect`, PDO, the SQL text and its string interpolation (injection), and exceptions. The tables are values. The 500 path of `go` is not modelled either; for the reason above, its unqualified catch never matches the driver's `\PDOException`.
- HTTP is not modelled: response headers, `respond`, and `execute`'s dispatch on the request method with its 405 exit.
- `extract` is not modelled: the `filter_var` sanitizers, `REMOTE_ADDR`, `HTTP_REFERER` and the clock become fields of the submission.
- Foreign code is left out because it is not in the core: Markdown rendering, `json_encode`, and the URL and e-mail validators are parameters.
- The throttle's session bookkeeping is left out: its outcome is the `wait` parameter.
- Errors.Format: models only the `%s` and `%d` conversions the templates use, and `%d` only of a leading run of digits. No other conversion, sign or leading white space occurs.
- `set_error` splices the field and message into JSON without escaping. The model does the same, but the read-back lemma assumes a field without a double quote, as every field here is.
- Ties in `ORDER BY comment_date DESC` are kept in table order. MySQL leaves their order unspecified.
- Store.BakePreservesFullRead, Store.WordpressAgreesWithZeroById and Pipeline.FullGetIsRepeatable: they prove equal sequences, which rests on this fixed tie order. With MySQL's unspecified tie order the code promises only the same rows as a multiset.
- The moniker INNER JOIN is modelled as "some container with this id and moniker". This equals the join when container ids are unique (`Store.InnerJoinIsSemiJoin`), and well-formed tables guarantee that.
- Store.ZeroFetch: the moniker compare uses byte equality, not MySQL's collation.
- Repository.ContainerLookup: save's `WHERE Moniker = '…'` is likewise byte equality, not MySQL's collation. `Repository.TwoSavesShareContainer` and `Repository.SaveByMonikerKeepsMonikersUnique` rest on it.
- Pipeline.ExecuteGet: the post id is restricted to natural numbers, with 0 for every falsy value. This is a modelling choice: `$_GET['pid']` reaches the query unsanitized, so truthy text such as "abc", "-3" or "00" is not modelled.
- Pipeline.ExecutePost: on the WordPress repository it uses `SaveChecked`, so the POST path follows the evidently intended gate. The as-written `Save`, which refuses every POST, is kept beside it with its own lemma.
- The `AllowComments` column that `comment_zero_repository::save` selects is not modelled, because the code never reads it.
- Concurrency is left out: two concurrent saves under one new moniker may both create a container. Only sequential saves are modelled.
- Auto-increment ids are modelled as the last issued id plus one. Gaps left by failed inserts are not modelled.

## Findings

| source | as written | input that shows it | evidently intended | confidence | as-written member | corrected member |
|---|---|---|---|---|---|---|
| dist/lib/comment-zero-repo.php:88-94 | the lookup selects only `ID`, then compares `$rows[0]['comment_status']` with 'open' | any POST to the WordPress repository, e.g. postid 5 for an existing post whose status is open: the status reads as NULL and save returns msg 'Error.' | select `ID, comment_status`, so that an open post accepts the comment | high (not executed) | Repository.WordpressRepository.Save, with Repository.WordpressGateNeverOpens | Repository.WordpressRepository.SaveChecked, with Repository.IntendedGateOpensIffOpenPost |
