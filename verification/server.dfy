/**
 Request dispatch in `handle_client` and the status decisions of the request
 handlers of `backend/src/main.rs`.  The database and the JSON library are
 not modelled: their outcomes are the fields of an `Env`.
 */
module Server {
  import opened Text
  import opened RequestText

  // Status lines

  datatype Status = Ok200 | NotFound404 | InternalError500

  /** The 200 status line followed by the JSON content type and the CORS headers, then a blank line. */
  const OkResponse: String := "HTTP/1.1 200 OK\r\n" + OkHeaders
  const OkHeaders: String :=
    "Content-Type: application/json\r\nAccess-Control-Allow-Origin: *\r\nAccess-Control-Allow-Methods: GET, POST, PUT, DELETE\r\nAccess-Control-Allow-Headers: Content-Type\r\n\r\n"
  const NotFoundResponse: String := "HTTP/1.1 404 NOT FOUND\r\n\r\n"
  const InternalErrorResponse: String := "HTTP/1.1 500 INTERNAL ERROR\r\n\r\n"

  function StatusLine(st: Status): String {
    match st
    case Ok200 => OkResponse
    case NotFound404 => NotFoundResponse
    case InternalError500 => InternalErrorResponse
  }

  /**
   What a handler returns: a status and the body text, or a panic from an
   `unwrap` on a failed database call, after which nothing is written.
   */
  datatype Reply = Reply(status: Status, content: String) | Panic

  // Outside collaborators

  datatype UserBody = UserBody(name: String, email: String)

  /** The outcomes of the calls a handler makes to Postgres and serde_json. */
  datatype Env = Env(
    decode: String -> Option<UserBody>,   // serde_json::from_str of a user body
    connects: bool,                       // Client::connect succeeds
    insert: UserBody -> Option<int>,      // INSERT .. RETURNING id; None when the query fails
    selectOne: int -> Option<String>,     // query_one by id, serialised; None when it returns Err
    selectAll: Option<String>,            // every row, serialised; None when the query fails
    update: (int, UserBody) -> bool,      // whether the UPDATE executes
    delete: int -> Option<nat>            // rows affected by the DELETE; None when it fails
  )

  // Dispatch

  datatype Route = Options | Post | GetOne | GetAll | Put | Delete | Unmatched

  /**
   The guards of the `match` in `handle_client`, tried in order: the first
   prefix the request starts with picks the handler.
   */
  function RouteOf(request: String): (r: Route)
    ensures r == Options <==> StartsWith(request, "OPTIONS")
    ensures r == Post <==> StartsWith(request, "POST /api/rust/users")
    ensures r == GetOne <==> StartsWith(request, "GET /api/rust/users/")
    ensures r == GetAll <==>
      StartsWith(request, "GET /api/rust/users") && !StartsWith(request, "GET /api/rust/users/")
    ensures r == Put <==> StartsWith(request, "PUT /api/rust/users/")
    ensures r == Delete <==> StartsWith(request, "DELETE /api/rust/users/")
  {
    PrefixesExclusive(request);
    if StartsWith(request, "OPTIONS") then Options
    else if StartsWith(request, "POST /api/rust/users") then Post
    else if StartsWith(request, "GET /api/rust/users/") then GetOne
    else if StartsWith(request, "GET /api/rust/users") then GetAll
    else if StartsWith(request, "PUT /api/rust/users/") then Put
    else if StartsWith(request, "DELETE /api/rust/users/") then Delete
    else Unmatched
  }

  lemma FirstChars(s: String, p: String)
    requires StartsWith(s, p)
    ensures |p| > 0 ==> s[0] == p[0]
    ensures |p| > 1 ==> s[1] == p[1]
  {
    if |p| > 1 {
      assert s[1] == s[..|p|][1];
    }
    if |p| > 0 {
      assert s[0] == s[..|p|][0];
    }
  }

  /** The route prefixes differ in their first two characters, except that one `GET` prefix extends the other. */
  lemma PrefixesExclusive(request: String)
    ensures StartsWith(request, "GET /api/rust/users/") ==> StartsWith(request, "GET /api/rust/users")
    ensures StartsWith(request, "OPTIONS") ==> request[0] == 'O'
    ensures StartsWith(request, "POST /api/rust/users") ==> request[0] == 'P' && request[1] == 'O'
    ensures StartsWith(request, "GET /api/rust/users") ==> request[0] == 'G'
    ensures StartsWith(request, "PUT /api/rust/users/") ==> request[0] == 'P' && request[1] == 'U'
    ensures StartsWith(request, "DELETE /api/rust/users/") ==> request[0] == 'D'
  {
    if StartsWith(request, "GET /api/rust/users/") {
      assert request[..19] == request[..20][..19];
    }
    if StartsWith(request, "OPTIONS") {
      FirstChars(request, "OPTIONS");
    }
    if StartsWith(request, "POST /api/rust/users") {
      FirstChars(request, "POST /api/rust/users");
    }
    if StartsWith(request, "GET /api/rust/users") {
      FirstChars(request, "GET /api/rust/users");
    }
    if StartsWith(request, "PUT /api/rust/users/") {
      FirstChars(request, "PUT /api/rust/users/");
    }
    if StartsWith(request, "DELETE /api/rust/users/") {
      FirstChars(request, "DELETE /api/rust/users/");
    }
  }

  // Handlers

  /** The id in the path, as `get_id(request).parse::<i32>()` reads it. */
  function PathId(request: String): Option<int> {
    ParseI32(GetId(request))
  }

  /** The id is usable exactly when the first word of the fifth path piece is a decimal i32 with an optional sign. */
  predicate ValidPathId(request: String) {
    IsIntText(GetId(request)) && InI32(IntTextValue(GetId(request)))
  }

  const InternalErrorReply: Reply := Reply(InternalError500, "Internal error")
  const UserNotFoundReply: Reply := Reply(NotFound404, "User not found")
  const NoRouteReply: Reply := Reply(NotFound404, "404 not found")

  /** `handle_post_request`. */
  function HandlePost(request: String, env: Env): (r: Reply)
    ensures r == InternalErrorReply <==> env.decode(RequestBody(request)).None? || !env.connects
    ensures r.Panic? <==>
      env.decode(RequestBody(request)).Some? && env.connects && env.insert(env.decode(RequestBody(request)).value).None?
    ensures !r.Panic? && r != InternalErrorReply ==>
      var id := env.insert(env.decode(RequestBody(request)).value).value;
      && (r.status == Ok200 <==> env.selectOne(id).Some?)
      && (r.status == Ok200 ==> r.content == env.selectOne(id).value)
      && (r.status != Ok200 ==> r == Reply(InternalError500, "Failed to retrieve created user"))
  {
    match (env.decode(RequestBody(request)), env.connects)
    case (Some(user), true) =>
      (match env.insert(user)
       case None => Panic
       case Some(id) =>
         match env.selectOne(id)
         case Some(json) => Reply(Ok200, json)
         case None => Reply(InternalError500, "Failed to retrieve created user"))
    case _ => InternalErrorReply
  }

  /** `handle_get_request`: one user by the id in the path. */
  function HandleGet(request: String, env: Env): (r: Reply)
    ensures r.Reply?
    ensures r == InternalErrorReply <==> !ValidPathId(request) || !env.connects
    ensures r == UserNotFoundReply <==>
      ValidPathId(request) && env.connects && env.selectOne(IntTextValue(GetId(request))).None?
    ensures r.status == Ok200 <==>
      ValidPathId(request) && env.connects && env.selectOne(IntTextValue(GetId(request))).Some?
    ensures r.status == Ok200 ==> r.content == env.selectOne(IntTextValue(GetId(request))).value
  {
    match (PathId(request), env.connects)
    case (Some(id), true) =>
      (match env.selectOne(id)
       case Some(json) => Reply(Ok200, json)
       case None => UserNotFoundReply)
    case _ => InternalErrorReply
  }

  /** `handle_get_all_request`. */
  function HandleGetAll(env: Env): (r: Reply)
    ensures r == InternalErrorReply <==> !env.connects
    ensures r.Panic? <==> env.connects && env.selectAll.None?
    ensures r.Reply? && r.status == Ok200 <==> env.connects && env.selectAll.Some?
    ensures r.Reply? && r.status == Ok200 ==> r.content == env.selectAll.value
  {
    if !env.connects then InternalErrorReply
    else match env.selectAll
      case Some(json) => Reply(Ok200, json)
      case None => Panic
  }

  /** `handle_put_request`: all of id, body and connection must be present. */
  function HandlePut(request: String, env: Env): (r: Reply)
    ensures r == InternalErrorReply <==>
      !ValidPathId(request) || env.decode(RequestBody(request)).None? || !env.connects
    ensures r != InternalErrorReply ==>
      var body := env.decode(RequestBody(request)).value;
      var id := IntTextValue(GetId(request));
      (r == Reply(Ok200, "User updated") <==> env.update(id, body)) && (r.Panic? <==> !env.update(id, body))
  {
    match (PathId(request), env.decode(RequestBody(request)), env.connects)
    case (Some(id), Some(user), true) =>
      if env.update(id, user) then Reply(Ok200, "User updated") else Panic
    case _ => InternalErrorReply
  }

  /** `handle_delete_request`: 404 exactly when no row went away. */
  function HandleDelete(request: String, env: Env): (r: Reply)
    ensures r == InternalErrorReply <==> !ValidPathId(request) || !env.connects
    ensures r != InternalErrorReply ==>
      var affected := env.delete(IntTextValue(GetId(request)));
      && (r.Panic? <==> affected.None?)
      && (r == UserNotFoundReply <==> affected == Some(0))
      && (r == Reply(Ok200, "User deleted") <==> affected.Some? && affected.value > 0)
  {
    match (PathId(request), env.connects)
    case (Some(id), true) =>
      (match env.delete(id)
       case None => Panic
       case Some(rows) => if rows == 0 then UserNotFoundReply else Reply(Ok200, "User deleted"))
    case _ => InternalErrorReply
  }

  /**
   The `match` of `handle_client`: a preflight `OPTIONS` gets an empty 200, and
   the plain 404 comes back exactly when no route prefix matches, since no
   handler answers with that text.
   */
  function Handle(request: String, env: Env): (r: Reply)
    ensures StartsWith(request, "OPTIONS") ==> r == Reply(Ok200, "")
    ensures r == NoRouteReply <==>
      && !StartsWith(request, "OPTIONS")
      && !StartsWith(request, "POST /api/rust/users")
      && !StartsWith(request, "GET /api/rust/users")
      && !StartsWith(request, "PUT /api/rust/users/")
      && !StartsWith(request, "DELETE /api/rust/users/")
  {
    HandlersNeverPlain404(request, env);
    UnmatchedPrefixes(request);
    match RouteOf(request)
    case Options => Reply(Ok200, "")
    case Post => HandlePost(request, env)
    case GetOne => HandleGet(request, env)
    case GetAll => HandleGetAll(env)
    case Put => HandlePut(request, env)
    case Delete => HandleDelete(request, env)
    case Unmatched => NoRouteReply
  }

  lemma UnmatchedPrefixes(request: String)
    ensures RouteOf(request) == Unmatched <==>
      && !StartsWith(request, "OPTIONS")
      && !StartsWith(request, "POST /api/rust/users")
      && !StartsWith(request, "GET /api/rust/users")
      && !StartsWith(request, "PUT /api/rust/users/")
      && !StartsWith(request, "DELETE /api/rust/users/")
  {
  }

  /** The plain 404 text is the dispatcher's own: no handler answers with it. */
  lemma HandlersNeverPlain404(request: String, env: Env)
    ensures HandlePost(request, env) != NoRouteReply
    ensures HandleGet(request, env) != NoRouteReply
    ensures HandleGetAll(env) != NoRouteReply
    ensures HandlePut(request, env) != NoRouteReply
    ensures HandleDelete(request, env) != NoRouteReply
  {
    assert UserNotFoundReply.content[0] != "404 not found"[0];
  }

  /** The bytes written back: the status line and then the body text. */
  function Respond(request: String, env: Env): (w: Option<String>)
    ensures w.None? <==> Handle(request, env).Panic?
    ensures w.Some? ==> StartsWith(w.value, StatusLine(Handle(request, env).status))
  {
    match Handle(request, env)
    case Panic => None
    case Reply(status, content) => Some(StatusLine(status) + content)
  }

  // Reading a response back

  /** The status a response text announces, read from its status line. */
  function StatusOf(w: String): Option<Status> {
    if StartsWith(w, OkResponse) then Some(Ok200)
    else if StartsWith(w, NotFoundResponse) then Some(NotFound404)
    else if StartsWith(w, InternalErrorResponse) then Some(InternalError500)
    else None
  }

  lemma StatusCodeDigits()
    ensures OkResponse[9] == '2' && NotFoundResponse[9] == '4' && InternalErrorResponse[9] == '5'
  {
    assert OkResponse[9] == "HTTP/1.1 200 OK\r\n"[9];
    assert NotFoundResponse[..12] == "HTTP/1.1 404";
    assert InternalErrorResponse[..12] == "HTTP/1.1 500";
  }

  lemma StatusLinesDiffer(w: String)
    ensures StartsWith(w, OkResponse) ==> w[9] == '2'
    ensures StartsWith(w, NotFoundResponse) ==> w[9] == '4'
    ensures StartsWith(w, InternalErrorResponse) ==> w[9] == '5'
  {
    StatusCodeDigits();
    if StartsWith(w, OkResponse) {
      assert w[9] == w[..|OkResponse|][9];
    }
    if StartsWith(w, NotFoundResponse) {
      assert w[9] == w[..|NotFoundResponse|][9];
    }
    if StartsWith(w, InternalErrorResponse) {
      assert w[9] == w[..|InternalErrorResponse|][9];
    }
  }

  /** The status and the body text can both be recovered from what is written. */
  lemma RespondReadsBack(request: String, env: Env)
    requires Handle(request, env).Reply?
    ensures Respond(request, env).Some?
    ensures StatusOf(Respond(request, env).value) == Some(Handle(request, env).status)
    ensures Respond(request, env).value[|StatusLine(Handle(request, env).status)|..] == Handle(request, env).content
  {
    var r := Handle(request, env);
    var w := Respond(request, env).value;
    StatusLinesDiffer(w);
    assert w[..|StatusLine(r.status)|] == StatusLine(r.status);
  }

  // Consequences of the dispatch order

  /** A `GET` with the trailing slash always goes to the single-user handler. */
  lemma TrailingSlashGetsOne(request: String, env: Env)
    requires StartsWith(request, "GET /api/rust/users/")
    ensures Handle(request, env) == HandleGet(request, env)
  {
  }

  /** A prefix followed by anything but a slash is not the prefix with a slash. */
  lemma NotExtendedBySlash(s: String, p: String)
    requires StartsWith(s, p)
    requires |s| == |p| || s[|p|] != '/'
    ensures !StartsWith(s, p + "/")
  {
  }

  /** `DELETE` with anything but a slash after `/users` matches no route. */
  lemma DeleteWithoutSlashNotFound(request: String, env: Env)
    requires StartsWith(request, "DELETE /api/rust/users")
    requires |request| == 22 || request[22] != '/'
    ensures Handle(request, env) == NoRouteReply
  {
    NotExtendedBySlash(request, "DELETE /api/rust/users");
    assert "DELETE /api/rust/users" + "/" == "DELETE /api/rust/users/";
    FirstChars(request, "DELETE /api/rust/users");
    PrefixesExclusive(request);
  }

  /** `PUT` with anything but a slash after `/users` matches no route. */
  lemma PutWithoutSlashNotFound(request: String, env: Env)
    requires StartsWith(request, "PUT /api/rust/users")
    requires |request| == 19 || request[19] != '/'
    ensures Handle(request, env) == NoRouteReply
  {
    NotExtendedBySlash(request, "PUT /api/rust/users");
    assert "PUT /api/rust/users" + "/" == "PUT /api/rust/users/";
    FirstChars(request, "PUT /api/rust/users");
    PrefixesExclusive(request);
  }

  /** Any text after `GET /api/rust/users` other than a slash still lists every user. */
  lemma GetAllPrefixIsLoose(request: String, env: Env)
    requires StartsWith(request, "GET /api/rust/users")
    requires |request| == 19 || request[19] != '/'
    ensures Handle(request, env) == HandleGetAll(env)
  {
    NotExtendedBySlash(request, "GET /api/rust/users");
    assert "GET /api/rust/users" + "/" == "GET /api/rust/users/";
  }

  /** The pieces of a request line whose path stops at `/users/`: the fifth is the protocol word. */
  function NoIdPieces(rest: String): seq<String> {
    ["GET ", "api", "rust", "users", " HTTP"] + Split(rest, "/")
  }

  lemma NoIdJoin(rest: String)
    ensures Join(NoIdPieces(rest), "/") == "GET /api/rust/users/ HTTP/" + rest
  {
    var t := [" HTTP"] + Split(rest, "/");
    assert NoIdPieces(rest) == ["GET ", "api", "rust", "users"] + t;
    JoinFour("GET ", "api", "rust", "users", t, "/");
    JoinCons(" HTTP", Split(rest, "/"), "/");
    SplitJoin(rest, "/");
    NoIdText();
  }

  lemma NoIdText()
    ensures ("GET " + "/" + "api" + "/" + "rust" + "/" + "users" + "/") + (" HTTP" + "/")
      == "GET /api/rust/users/ HTTP/"
  {
  }

  lemma NoIdSlashFree(rest: String)
    ensures forall k :: 0 <= k < |NoIdPieces(rest)| ==> '/' !in NoIdPieces(rest)[k]
  {
    var pieces := NoIdPieces(rest);
    var more := Split(rest, "/");
    forall k | 0 <= k < |pieces| ensures '/' !in pieces[k] {
      if k >= 5 {
        assert pieces[k] == more[k - 5];
        CharOccurring(more[k - 5], '/');
      }
    }
  }

  lemma ProtocolWordIsId(rest: String)
    ensures GetId("GET /api/rust/users/ HTTP/" + rest) == "HTTP"
  {
    NoIdJoin(rest);
    NoIdSlashFree(rest);
    GetIdOfPieces(NoIdPieces(rest));
    ProtocolWord();
  }

  lemma ProtocolWord()
    ensures FirstWord(" HTTP") == "HTTP"
  {
    assert IsWhitespace(' ') && !IsWhitespace('H') && !IsWhitespace('T') && !IsWhitespace('P');
    FirstWordOf(" ", "HTTP", "");
    assert " " + "HTTP" + "" == " HTTP";
  }

  lemma ProtocolWordIsNoNumber()
    ensures ParseI32("HTTP") == None
  {
    assert !IsDigit("HTTP"[0]);
  }

  lemma TrailingSlashRoute(rest: String)
    ensures RouteOf("GET /api/rust/users/ HTTP/" + rest) == GetOne
  {
    assert "GET /api/rust/users/ HTTP/" == "GET /api/rust/users/" + " HTTP/";
    StartsWithAppend("GET /api/rust/users/", " HTTP/" + rest);
  }

  /**
   A request line whose path ends at `/users/` has no id: the fifth piece is the
   protocol word, which is no number, so the single-user handler answers 500
   whatever follows the protocol name.
   */
  lemma GetWithoutIdFails(rest: String, env: Env)
    ensures Handle("GET /api/rust/users/ HTTP/" + rest, env) == InternalErrorReply
  {
    TrailingSlashRoute(rest);
    ProtocolWordIsId(rest);
    ProtocolWordIsNoNumber();
  }

  // Requests naming a user

  /**
   A request whose path is `/api/rust/users/` followed by a decimal id, as the
   user interface builds it; `gap` is the text after the id up to the next
   slash and `more` the slash-separated rest of the request.
   */
  function UserRequest(verb: String, v: int, gap: String, more: seq<String>): String {
    Join([verb + " ", "api", "rust", "users", IntText(v) + gap] + more, "/")
  }

  lemma IntTextChars(n: int)
    ensures forall k :: 0 <= k < |IntText(n)| ==> IntText(n)[k] == '-' || IsDigit(IntText(n)[k])
  {
    if n < 0 {
      var ds := DecimalText(-n);
      forall k | 1 <= k < |IntText(n)| ensures IsDigit(IntText(n)[k]) {
        assert IntText(n)[k] == ds[k - 1];
      }
    }
  }

  lemma StartsWithAppend(p: String, x: String)
    ensures StartsWith(p + x, p)
  {
    assert (p + x)[..|p|] == p;
  }

  /** The text before the id: the verb, a space, then the path up to its last slash. */
  function PathPrefix(verb: String): String {
    (verb + " ") + "/" + "api" + "/" + "rust" + "/" + "users" + "/"
  }

  lemma UserRequestStarts(verb: String, v: int, gap: String, more: seq<String>)
    ensures StartsWith(UserRequest(verb, v, gap, more), PathPrefix(verb))
  {
    var t := [IntText(v) + gap] + more;
    assert [verb + " ", "api", "rust", "users", IntText(v) + gap] + more == [verb + " ", "api", "rust", "users"] + t;
    JoinFour(verb + " ", "api", "rust", "users", t, "/");
    StartsWithAppend(PathPrefix(verb), Join(t, "/"));
  }

  lemma GetPathPrefix()
    ensures PathPrefix("GET") == "GET /api/rust/users/"
  {
  }

  lemma DeletePathPrefix()
    ensures PathPrefix("DELETE") == "DELETE /api/rust/users/"
  {
  }

  lemma UserPiecesSlashFree(verb: String, v: int, gap: String, more: seq<String>)
    requires '/' !in verb && '/' !in gap
    requires forall k :: 0 <= k < |more| ==> '/' !in more[k]
    ensures var pieces := [verb + " ", "api", "rust", "users", IntText(v) + gap] + more;
      forall k :: 0 <= k < |pieces| ==> '/' !in pieces[k]
  {
    var pieces := [verb + " ", "api", "rust", "users", IntText(v) + gap] + more;
    IntTextChars(v);
    forall k | 0 <= k < |pieces| ensures '/' !in pieces[k] {
      if k == 4 {
        assert forall j :: 0 <= j < |IntText(v)| ==> (IntText(v) + gap)[j] == IntText(v)[j];
      } else if k > 4 {
        assert pieces[k] == more[k - 5];
      }
    }
  }

  /** The id the server reads from such a request is the id written into it. */
  lemma PathIdOfUserRequest(verb: String, v: int, gap: String, more: seq<String>)
    requires InI32(v)
    requires '/' !in verb && '/' !in gap && (|gap| == 0 || IsWhitespace(gap[0]))
    requires forall k :: 0 <= k < |more| ==> '/' !in more[k]
    ensures PathId(UserRequest(verb, v, gap, more)) == Some(v)
  {
    UserPiecesSlashFree(verb, v, gap, more);
    GetIdOfPieces([verb + " ", "api", "rust", "users", IntText(v) + gap] + more);
    IntTextChars(v);
    FirstWordAtStart(IntText(v), gap);
    ParseI32OfText(v);
  }

  /** A `GET` for a formatted id asks the database for exactly that id. */
  lemma GetUserRequest(v: int, gap: String, more: seq<String>, env: Env)
    requires InI32(v)
    requires '/' !in gap && (|gap| == 0 || IsWhitespace(gap[0]))
    requires forall k :: 0 <= k < |more| ==> '/' !in more[k]
    ensures Handle(UserRequest("GET", v, gap, more), env) ==
      if !env.connects then InternalErrorReply
      else if env.selectOne(v).None? then UserNotFoundReply
      else Reply(Ok200, env.selectOne(v).value)
  {
    GetUserRoute(v, gap, more);
    PathIdOfUserRequest("GET", v, gap, more);
  }

  lemma GetUserRoute(v: int, gap: String, more: seq<String>)
    ensures RouteOf(UserRequest("GET", v, gap, more)) == GetOne
  {
    UserRequestStarts("GET", v, gap, more);
    GetPathPrefix();
  }

  /** A `DELETE` for a formatted id removes exactly that id. */
  lemma DeleteUserRequest(v: int, gap: String, more: seq<String>, env: Env)
    requires InI32(v)
    requires '/' !in gap && (|gap| == 0 || IsWhitespace(gap[0]))
    requires forall k :: 0 <= k < |more| ==> '/' !in more[k]
    ensures Handle(UserRequest("DELETE", v, gap, more), env) ==
      if !env.connects then InternalErrorReply
      else match env.delete(v)
        case None => Panic
        case Some(rows) => if rows == 0 then UserNotFoundReply else Reply(Ok200, "User deleted")
  {
    UserRequestStarts("DELETE", v, gap, more);
    DeletePathPrefix();
    PrefixesExclusive(UserRequest("DELETE", v, gap, more));
    PathIdOfUserRequest("DELETE", v, gap, more);
  }
}
