# User list: request handling and client state, modelled in Dafny

The system is a small user directory. A Rust server answers raw HTTP text on
port 8080 for `/api/rust/users`: it lists, creates, reads, updates and deletes
rows of a Postgres `users` table. A Next.js page keeps a list of those users in
memory and patches that list after each call it makes to the server.

This project models both halves as pure functions.

- `text.dfy` (`Text`): strings as character sequences and an `Option` type.
  It defines the left-to-right, non-overlapping pattern split behind Rust's
  `str::split`, its inverse `Join`, and the digit arithmetic shared by both
  integer parsers.
- `request_text.dfy` (`RequestText`): the server's text helpers.
  - `GetId` models `get_id`: the fifth `/` piece of the request, then its
    first whitespace-separated word.
  - `RequestBody` models the `split("\r\n\r\n").last()` step that picks the
    text for the JSON decoder.
  - `ParseI32` models `str::parse::<i32>`, with the checked arithmetic that
    rejects overflow.
- `server.dfy` (`Server`): the server's dispatch and replies.
  - `RouteOf` is the ordered prefix `match` of `handle_client`.
  - The five handlers decide the status and the body text from the outcomes
    of the database and the JSON decoder. Those outcomes are the fields of an
    `Env`.
  - `Handle` is the whole dispatch: the route, then that route's handler.
  - `Respond` builds the text written back. A failed `unwrap` gives `None`:
    nothing is written, and the process itself stops (see "Left out").
- `js_number.dfy` (`JsNumber`): the page's `parseInt` with no radix, as
  section 19.2.5 of ECMA-262 defines it. It skips leading white space, reads a
  sign, switches to hex after `0x`/`0X`, and reads the longest digit prefix.
  NaN is `None`.
- `user_interface.dfy` (`UserInterface`): the component's state and one
  transition per remote call (load, create, update and delete).
  - Each transition takes the call's `Outcome`, which is `Success(payload)` or
    `Failure`.
  - `Step` runs any of them as an event.

Two behaviours of the code are worth stating on their own:

- Body extraction is not "everything after the header block". Rust splits at
  non-overlapping blank lines found from the left and keeps the last piece,
  whereas the message layout of section 2.1 of RFC 9112 ends the header block
  at the first blank line:
  - a body that itself holds a blank line is cut at it, and only its last
    piece reaches the decoder (`RequestText.BodyCutAtInnerBlankLine`);
  - `"\r\n\r\n\r\n"` gives `"\r\n"`, not the empty text after the
    rightmost blank line (`RequestText.BodyOfThreeLineBreaks`).
- `get_id` skips white space at the start of the fifth piece
  (`split_whitespace`). A request line starting `"GET /api/rust/users/ HTTP/"`
  therefore reads the id `"HTTP"`, and the server answers 500
  (`Server.GetWithoutIdFails`).

## Model

| member | source | states |
|---|---|---|
| Text.Split | backend/src/main.rs:81 | splitting always yields at least one piece, and no piece contains the separator |
| Text.SplitJoin | backend/src/main.rs:81 | splitting loses nothing: joining the pieces with the separator gives the input back |
| Text.JoinSplit | backend/src/main.rs:81 | with a one-character separator, pieces free of it are recovered exactly from their join |
| Text.DecimalText | frontend/app/components/UserInterface.tsx:69 | the decimal text of a number is a non-empty run of digits whose value is that number, with no leading zero except for 0 itself, which is `"0"` |
| RequestText.FirstWord | backend/src/main.rs:81 | `split_whitespace().next()` yields a word with no white space, made of characters of the input, and is empty exactly when the input is all white space |
| RequestText.FirstWordOf | backend/src/main.rs:81 | leading white space is skipped and the word ends at the next white space |
| RequestText.SplitCount | backend/src/main.rs:81 | splitting at a character yields one piece more than the character's occurrences |
| RequestText.GetId | backend/src/main.rs:80-82 | the id contains neither `/` nor white space, and is empty when the request has fewer than four slashes |
| RequestText.GetIdOfPieces | backend/src/main.rs:80-82 | for any slash-free pieces, the id of their join is the first word of the fifth piece |
| RequestText.GetIdExample | backend/src/main.rs:80-82 | `GET /api/rust/users/42 HTTP/1.1` gives the id `42` |
| RequestText.RequestBody | backend/src/main.rs:88-90 | the body holds no blank line, is a suffix of the request, follows a blank line when it is not the whole request, and is the whole request when there is no blank line |
| RequestText.BodyAfterFirstBlankLine | backend/src/main.rs:89 | a head and a body without blank lines, joined by one blank line, give back that body, as in the message layout of section 2.1 of RFC 9112 |
| RequestText.RequestBodySkipsHead | backend/src/main.rs:89 | text that ends at the first blank line is dropped, and the body is taken from what follows it |
| RequestText.BodyCutAtInnerBlankLine | backend/src/main.rs:89 | for any head and body parts without blank lines, a body holding a blank line is cut at it: only the part after it reaches the decoder |
| RequestText.BodyWithBlankLine | backend/src/main.rs:89 | an instance of the cut: `{` and `}` split by a blank line give the decoder `}` alone |
| RequestText.BodyOfThreeLineBreaks | backend/src/main.rs:89 | three line breaks in a row give `"\r\n"`, not the empty text after the rightmost blank line |
| RequestText.Accumulate | backend/src/main.rs:176 | the checked digit loop succeeds exactly when every character is a digit and the exact value stays in the i32 range, and then yields that value |
| RequestText.ParseI32 | backend/src/main.rs:176 | `parse::<i32>` succeeds exactly on an optional sign followed by at least one digit whose value fits in i32, and yields that value |
| RequestText.ParseI32OfText | backend/src/main.rs:176 | every i32 written in decimal is read back as itself |
| RequestText.ParseI32RejectsEmpty | backend/src/main.rs:176 | the empty id is rejected |
| JsNumber.TrimStart | frontend/app/components/UserInterface.tsx:55 | `parseInt` drops exactly the leading white space and line terminators |
| JsNumber.DigitPrefix | frontend/app/components/UserInterface.tsx:55 | the digits read are the longest prefix of digits of the radix |
| JsNumber.ParseInt | frontend/app/components/UserInterface.tsx:55 | text with no decimal digit is read as NaN |
| JsNumber.ParseIntSkipsSpace | frontend/app/components/UserInterface.tsx:55 | leading white space never changes the number read |
| JsNumber.ParseIntOfText | frontend/app/components/UserInterface.tsx:55 | a decimal integer, after any white space and before any character that cannot continue it, is read back as itself; only a lone `0` before `x` or `X` is excluded, since that starts a hex number |
| JsNumber.ParseIntOfIntText | frontend/app/components/UserInterface.tsx:55 | the decimal text of any integer, alone, is read back as that integer |
| JsNumber.ParseIntEmpty | frontend/app/components/UserInterface.tsx:55 | the empty id is NaN |
| UserInterface.InitialState | frontend/app/components/UserInterface.tsx:19-21 | the component mounts with an empty list, a blank create form and a blank update form whose id is read as NaN |
| UserInterface.Reverse | frontend/app/components/UserInterface.tsx:27 | the reversed list has the same length, and element i is element n-1-i of the input |
| UserInterface.ReverseInvolutive | frontend/app/components/UserInterface.tsx:27 | reversing twice gives the list back |
| UserInterface.ReversePermutes | frontend/app/components/UserInterface.tsx:27 | reversal keeps the multiset of records |
| UserInterface.Load | frontend/app/components/UserInterface.tsx:24-31 | a failed load keeps the state; a successful one sets the list to the reversed response, with the same length and multiset, and leaves both drafts alone |
| UserInterface.Create | frontend/app/components/UserInterface.tsx:35-44 | a failed create keeps the state and the draft; a successful one puts the created record first, keeps the old list as the tail, grows the list by one and clears the create draft |
| UserInterface.Patch | frontend/app/components/UserInterface.tsx:53-60 | the patched list keeps length and ids; matching records take the new name and email and all others are unchanged |
| UserInterface.Update | frontend/app/components/UserInterface.tsx:46-65 | a failed update keeps the state; a successful one keeps length and every id, gives each record whose id equals `parseInt` of the typed id the draft's name and email, leaves every other record as it was, and clears the update draft |
| UserInterface.PatchWithoutMatch | frontend/app/components/UserInterface.tsx:54-58 | an id that matches no record, NaN included, leaves the list identical |
| UserInterface.PatchIdempotent | frontend/app/components/UserInterface.tsx:53-60 | applying the same patch twice equals applying it once |
| UserInterface.PatchOne | frontend/app/components/UserInterface.tsx:53-60 | with distinct ids, patching a record's id rewrites that record alone |
| UserInterface.UpdateByTypedId | frontend/app/components/UserInterface.tsx:49-61 | typing a record's id in decimal and submitting rewrites exactly that record's name and email |
| UserInterface.UpdateWithoutDigits | frontend/app/components/UserInterface.tsx:55 | an id with no decimal digit changes no record |
| UserInterface.UpdateWithClearedDraft | frontend/app/components/UserInterface.tsx:21 | submitting the update form as initialised, or as cleared after an update, leaves the state as it was |
| UserInterface.Remove | frontend/app/components/UserInterface.tsx:70 | a record is kept exactly when it was in the list and its id differs, and exactly the records with that id go away |
| UserInterface.RemoveAppend | frontend/app/components/UserInterface.tsx:70 | filtering a concatenation filters each part, so the order of the kept records is the original order |
| UserInterface.RemoveAbsent | frontend/app/components/UserInterface.tsx:70 | removing an id that is not present leaves the list identical |
| UserInterface.RemoveIdempotent | frontend/app/components/UserInterface.tsx:70 | deleting twice equals deleting once |
| UserInterface.CountIdUnique | frontend/app/components/UserInterface.tsx:70 | with distinct ids a given id occurs once or not at all |
| UserInterface.Delete | frontend/app/components/UserInterface.tsx:67-74 | a failed delete keeps the state; a successful one keeps exactly the records whose id differs, leaves no record with the id, keeps both drafts, and with distinct ids shortens the list by one exactly when the id was present |
| UserInterface.CreateThenDelete | frontend/app/components/UserInterface.tsx:35-74 | deleting a freshly created record with a new id gives the list from before the create |
| UserInterface.FailedCallKeepsState | frontend/app/components/UserInterface.tsx:23-74 | a call that fails leaves the list and both drafts unchanged |
| UserInterface.RemoveKeepsUniqueIds | frontend/app/components/UserInterface.tsx:70 | filtering keeps ids distinct |
| UserInterface.StepKeepsUniqueIds | frontend/app/components/UserInterface.tsx:23-74 | when the server hands out distinct and fresh ids, every transition keeps the ids in the list distinct |
| Server.RouteOf | backend/src/main.rs:105-113 | each route is taken exactly when its prefix matches and no earlier prefix does; `GET /api/rust/users` lists all only without the trailing slash |
| Server.PrefixesExclusive | backend/src/main.rs:106-111 | the route prefixes exclude each other by their first characters, except that the single-user `GET` prefix extends the list-all one |
| Server.HandlePost | backend/src/main.rs:130-166 | 500 when the body does not decode or the connection fails; a panic when the insert fails; then 200 with the re-read record, or 500 when re-reading it fails |
| Server.HandleGet | backend/src/main.rs:173-195 | 500 exactly when the id is no i32 or the connection fails; otherwise 404 when the row is missing and 200 with the record when it is found |
| Server.HandleGetAll | backend/src/main.rs:204-225 | 500 exactly when the connection fails; a panic when the query fails; otherwise 200 with every row serialised |
| Server.HandlePut | backend/src/main.rs:236-260 | 500 exactly when the id, the body or the connection fails; otherwise 200 "User updated" when the update runs and a panic when it fails |
| Server.HandleDelete | backend/src/main.rs:273-290 | 500 exactly when the id or the connection fails; otherwise a panic when the statement fails, 404 exactly when no row was affected and 200 "User deleted" otherwise |
| Server.Handle | backend/src/main.rs:105-113 | `OPTIONS` gets an empty 200, and the plain `404 not found` comes back exactly when the request starts with none of the route prefixes |
| Server.Respond | backend/src/main.rs:105-115 | nothing is written exactly when a handler panics; otherwise the text starts with the handler's status line |
| Server.StatusLinesDiffer | backend/src/main.rs:21-25 | the three status lines differ in the status code at the same position |
| Server.RespondReadsBack | backend/src/main.rs:115 | both the status and the body text can be read back from the written response |
| Server.TrailingSlashGetsOne | backend/src/main.rs:108-109 | a `GET` with the trailing slash always goes to the single-user handler |
| Server.PutWithoutSlashNotFound | backend/src/main.rs:110-112 | any request starting `PUT /api/rust/users` and not followed by a slash falls through to `404 not found` |
| Server.DeleteWithoutSlashNotFound | backend/src/main.rs:111-112 | any request starting `DELETE /api/rust/users` and not followed by a slash falls through to `404 not found` |
| Server.GetAllPrefixIsLoose | backend/src/main.rs:108-109 | any request starting `GET /api/rust/users` and not followed by a slash lists every user |
| Server.GetWithoutIdFails | backend/src/main.rs:173-177 | a request starting `GET /api/rust/users/ HTTP/`, whatever follows, reads the protocol word as the id and answers 500 |
| Server.PathIdOfUserRequest | backend/src/main.rs:80-82 | the id the server reads from `/api/rust/users/<id>`, as the page builds that path, is the id written into it |
| Server.GetUserRequest | backend/src/main.rs:173-195 | a `GET` for a written id queries exactly that id |
| Server.DeleteUserRequest | backend/src/main.rs:273-290 | a `DELETE` for a written id deletes exactly that id |

## Left out

- Socket I/O is not modelled: the TCP listener, the single 1024-byte read and
  the lossy UTF-8 decoding of `handle_client`. A request is the decoded text,
  and a reply is the text that would be written.
- What follows a panic is not modelled. The `unwrap` calls in the handlers
  (`backend/src/main.rs:142`, `212`, `254` and `281`) run inside
  `handle_client` on the thread of `main`, with nothing catching the unwind.
  A `Server.Panic` reply therefore ends the whole server process, and no later
  request is answered. The model treats each request on its own and records
  only that nothing is written for it.
- A failed write (`write_all(..).unwrap()`) is not modelled. A read error is
  not modelled either: it only logs.
- Postgres is not modelled. Connecting and each query are the fields of
  `Server.Env`. The rows are not stored, so the model does not relate the
  server's table to the page's list. `set_database` and `main` are left out.
- serde_json is not modelled. Decoding a body is `Env.decode`, and the JSON
  text of records is an opaque string from `Env.selectOne` and
  `Env.selectAll`. Serialising is taken never to fail, as the `unwrap` after
  `to_string` assumes.
- Server.HandlePost and Server.HandleGet use the same `Env.selectOne` for the
  re-read after the insert (`SELECT id, name, email`) and for `SELECT *`,
  because the table has exactly those columns.
- Server.HandleGetAll does not model how the rows are collected into a list.
  The serialised list is one abstract value.
- `backend/src/requests.rs` is not part of this model. It is a fragment that
  the server does not use.
- The page's HTTP calls are not modelled: axios, the base URL taken from the
  environment, and the `backendName` path segment. They are reduced to their
  outcome. Calls that are in flight at the same time are not modelled, so
  each transition applies to the state it is given.
- JsNumber.ParseInt reads the magnitude as an exact integer. It does not round
  to the nearest double beyond 2^53, and it does not produce `-0`. Ids of the
  page are i32 values, which doubles represent exactly.
- UserInterface.Create and UserInterface.Load take the payload as already
  decoded records. What happens when the server's JSON lacks a field is not
  modelled.
- The form `onChange` handlers that edit the drafts are not modelled. They
  copy what the user types into the drafts and do nothing else.
- Rendering is not modelled: the JSX of `UserInterface`, `CardComponent`,
  `page.tsx` and `layout.tsx`.
