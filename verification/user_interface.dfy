/**
 The state kept by the `UserInterface` component: the ordered list of user
 records and the two form drafts, and the way each remote call patches that
 state once it returns.  A remote call is reduced to its outcome: the decoded
 payload when it succeeds, or a failure, which is only logged.
 */
module UserInterface {
  import opened Text
  import JsNumber

  datatype User = User(id: int, name: String, email: String)

  datatype CreateDraft = CreateDraft(name: String, email: String)

  /** The update form keeps the id as typed; it is parsed only on submit. */
  datatype UpdateDraft = UpdateDraft(id: String, name: String, email: String)

  datatype State = State(users: seq<User>, newUser: CreateDraft, updateUser: UpdateDraft)

  datatype Outcome<+T> = Success(payload: T) | Failure

  const EmptyCreateDraft: CreateDraft := CreateDraft("", "")
  const EmptyUpdateDraft: UpdateDraft := UpdateDraft("", "", "")

  /** The state the component mounts with. */
  const Initial: State := State([], EmptyCreateDraft, EmptyUpdateDraft)

  /** The component mounts with no users and both forms blank; the blank id parses to no number. */
  lemma InitialState()
    ensures Initial.users == [] && UniqueIds(Initial.users)
    ensures Initial.newUser == CreateDraft("", "")
    ensures Initial.updateUser == UpdateDraft("", "", "")
    ensures JsNumber.ParseInt(Initial.updateUser.id) == None
  {
  }

  predicate HasId(users: seq<User>, id: int) {
    exists u :: u in users && u.id == id
  }

  predicate UniqueIds(users: seq<User>) {
    forall i, j :: 0 <= i < j < |users| ==> users[i].id != users[j].id
  }

  // Load

  /** `Array.prototype.reverse`. */
  function Reverse<T>(xs: seq<T>): (r: seq<T>)
    ensures |r| == |xs|
    ensures forall i :: 0 <= i < |xs| ==> r[i] == xs[|xs| - 1 - i]
  {
    if xs == [] then [] else Reverse(xs[1..]) + [xs[0]]
  }

  lemma ReverseInvolutive<T>(xs: seq<T>)
    ensures Reverse(Reverse(xs)) == xs
  {
    var r := Reverse(Reverse(xs));
    assert forall i :: 0 <= i < |xs| ==> r[i] == xs[i];
  }

  lemma {:induction false} ReversePermutes<T>(xs: seq<T>)
    ensures multiset(Reverse(xs)) == multiset(xs)
  {
    if xs != [] {
      ReversePermutes(xs[1..]);
      assert xs == [xs[0]] + xs[1..];
    }
  }

  /** `fetchData`: the fetched list is stored newest first. */
  function Load(s: State, response: Outcome<seq<User>>): (s': State)
    ensures response.Failure? ==> s' == s
    ensures s'.newUser == s.newUser && s'.updateUser == s.updateUser
    ensures response.Success? ==>
      && |s'.users| == |response.payload|
      && (forall i :: 0 <= i < |s'.users| ==> s'.users[i] == response.payload[|response.payload| - 1 - i])
      && multiset(s'.users) == multiset(response.payload)
  {
    match response
    case Failure => s
    case Success(data) =>
      ReversePermutes(data);
      s.(users := Reverse(data))
  }

  // Create

  /** `createUser`: the created record goes in front and the create form is cleared. */
  function Create(s: State, response: Outcome<User>): (s': State)
    ensures response.Failure? ==> s' == s
    ensures s'.updateUser == s.updateUser
    ensures response.Success? ==>
      && |s'.users| == |s.users| + 1
      && s'.users[0] == response.payload
      && s'.users[1..] == s.users
      && s'.newUser == Initial.newUser
  {
    match response
    case Failure => s
    case Success(created) => s.(users := [created] + s.users, newUser := EmptyCreateDraft)
  }

  // Update

  /** `user.id === parseInt(updateUser.id)`; NaN equals nothing. */
  predicate Matches(u: User, target: Option<int>) {
    target.Some? && u.id == target.value
  }

  /** The `users.map` of `handleUpdateUser`. */
  function Patch(users: seq<User>, target: Option<int>, name: String, email: String): (r: seq<User>)
    ensures |r| == |users|
    ensures forall i :: 0 <= i < |users| ==> r[i].id == users[i].id
    ensures forall i :: 0 <= i < |users| && Matches(users[i], target) ==> r[i].name == name && r[i].email == email
    ensures forall i :: 0 <= i < |users| && !Matches(users[i], target) ==> r[i] == users[i]
  {
    if users == [] then []
    else
      var u := users[0];
      [if Matches(u, target) then u.(name := name, email := email) else u]
        + Patch(users[1..], target, name, email)
  }

  /** `handleUpdateUser`: matching records take the draft's name and email, and the form is cleared. */
  function Update(s: State, response: Outcome<()>): (s': State)
    ensures response.Failure? ==> s' == s
    ensures s'.newUser == s.newUser
    ensures response.Success? ==>
      && |s'.users| == |s.users|
      && (forall i :: 0 <= i < |s.users| ==> s'.users[i].id == s.users[i].id)
      && (forall i :: 0 <= i < |s.users| && Matches(s.users[i], JsNumber.ParseInt(s.updateUser.id)) ==>
            s'.users[i].name == s.updateUser.name && s'.users[i].email == s.updateUser.email)
      && (forall i :: 0 <= i < |s.users| && !Matches(s.users[i], JsNumber.ParseInt(s.updateUser.id)) ==>
            s'.users[i] == s.users[i])
      && s'.updateUser == Initial.updateUser
  {
    match response
    case Failure => s
    case Success(_) =>
      var d := s.updateUser;
      s.(users := Patch(s.users, JsNumber.ParseInt(d.id), d.name, d.email), updateUser := EmptyUpdateDraft)
  }

  /** An update whose id matches no record, NaN included, leaves the list as it was. */
  lemma PatchWithoutMatch(users: seq<User>, target: Option<int>, name: String, email: String)
    requires target.None? || !HasId(users, target.value)
    ensures Patch(users, target, name, email) == users
  {
    var r := Patch(users, target, name, email);
    forall i | 0 <= i < |users| ensures r[i] == users[i] {
      assert users[i] in users;
    }
  }

  lemma PatchIdempotent(users: seq<User>, target: Option<int>, name: String, email: String)
    ensures Patch(Patch(users, target, name, email), target, name, email) == Patch(users, target, name, email)
  {
    var once := Patch(users, target, name, email);
    var twice := Patch(once, target, name, email);
    forall i | 0 <= i < |users| ensures twice[i] == once[i] {
      if Matches(users[i], target) {
        assert twice[i] == User(users[i].id, name, email);
      }
    }
  }

  lemma UpdateUsers(s: State)
    ensures Update(s, Success(())).users
      == Patch(s.users, JsNumber.ParseInt(s.updateUser.id), s.updateUser.name, s.updateUser.email)
  {
  }

  /** With distinct ids, an update aimed at a record's id rewrites that record alone. */
  lemma PatchOne(users: seq<User>, k: nat, name: String, email: String)
    requires k < |users| && UniqueIds(users)
    ensures Patch(users, Some(users[k].id), name, email) == users[k := users[k].(name := name, email := email)]
  {
    var r := Patch(users, Some(users[k].id), name, email);
    var expected := users[k := users[k].(name := name, email := email)];
    forall i | 0 <= i < |users| ensures r[i] == expected[i] {
      if i != k {
        assert users[i].id != users[k].id;
      }
    }
  }

  /** Typing a record's id in decimal and submitting rewrites exactly that record. */
  lemma UpdateByTypedId(s: State, k: nat)
    requires k < |s.users| && UniqueIds(s.users)
    requires s.updateUser.id == IntText(s.users[k].id)
    ensures Update(s, Success(())).users
      == s.users[k := s.users[k].(name := s.updateUser.name, email := s.updateUser.email)]
  {
    var d := s.updateUser;
    JsNumber.ParseIntOfIntText(s.users[k].id);
    PatchOne(s.users, k, d.name, d.email);
    UpdateUsers(s);
  }

  /**
   An id with no decimal digit, the empty id of a cleared form among them, is
   read as NaN, so submitting it changes no record.
   */
  lemma UpdateWithoutDigits(s: State)
    requires forall k :: 0 <= k < |s.updateUser.id| ==> !IsDigit(s.updateUser.id[k])
    ensures Update(s, Success(())).users == s.users
  {
    var d := s.updateUser;
    assert JsNumber.ParseInt(d.id) == None;
    PatchWithoutMatch(s.users, None, d.name, d.email);
    UpdateUsers(s);
  }

  /**
   Submitting the update form as it is on mount, or after a successful update
   has cleared it, leaves the whole state as it was.
   */
  lemma UpdateWithClearedDraft(users: seq<User>, newUser: CreateDraft)
    ensures Update(State(users, newUser, EmptyUpdateDraft), Success(())) == State(users, newUser, EmptyUpdateDraft)
  {
    UpdateWithoutDigits(State(users, newUser, EmptyUpdateDraft));
  }

  // Delete

  function CountId(users: seq<User>, id: int): nat {
    if users == [] then 0 else (if users[0].id == id then 1 else 0) + CountId(users[1..], id)
  }

  /** The `users.filter` of `deleteUser`. */
  function Remove(users: seq<User>, id: int): (r: seq<User>)
    ensures forall u :: u in r <==> u in users && u.id != id
    ensures |r| == |users| - CountId(users, id)
  {
    if users == [] then []
    else (if users[0].id == id then [] else [users[0]]) + Remove(users[1..], id)
  }

  /** Filtering distributes over concatenation, so kept records stay in their order. */
  lemma {:induction false} RemoveAppend(a: seq<User>, b: seq<User>, id: int)
    ensures Remove(a + b, id) == Remove(a, id) + Remove(b, id)
  {
    if a == [] {
      assert a + b == b;
    } else {
      assert (a + b)[1..] == a[1..] + b;
      RemoveAppend(a[1..], b, id);
    }
  }

  lemma {:induction false} RemoveAbsent(users: seq<User>, id: int)
    requires !HasId(users, id)
    ensures Remove(users, id) == users
  {
    if users != [] {
      assert users[0] in users;
      assert !HasId(users[1..], id) by {
        forall u | u in users[1..] ensures u.id != id {
          assert u in users;
        }
      }
      RemoveAbsent(users[1..], id);
      assert users == [users[0]] + users[1..];
    }
  }

  lemma RemoveIdempotent(users: seq<User>, id: int)
    ensures Remove(Remove(users, id), id) == Remove(users, id)
  {
    RemoveAbsent(Remove(users, id), id);
  }

  lemma {:induction false} CountIdUnique(users: seq<User>, id: int)
    requires UniqueIds(users)
    ensures CountId(users, id) == if HasId(users, id) then 1 else 0
  {
    if users != [] {
      var tail := users[1..];
      CountIdUnique(tail, id);
      assert users[0] in users;
      if users[0].id == id {
        assert !HasId(tail, id) by {
          forall u | u in tail ensures u.id != id {
            var j :| 0 <= j < |tail| && tail[j] == u;
            assert users[j + 1] == u;
          }
        }
      } else {
        assert HasId(users, id) <==> HasId(tail, id) by {
          forall u | u in users && u.id == id ensures u in tail {
            var j :| 0 <= j < |users| && users[j] == u;
            assert j != 0;
            assert tail[j - 1] == u;
          }
        }
      }
    }
  }

  lemma DeleteCount(users: seq<User>, id: int)
    ensures UniqueIds(users) ==> CountId(users, id) == if HasId(users, id) then 1 else 0
  {
    if UniqueIds(users) {
      CountIdUnique(users, id);
    }
  }

  /** `deleteUser`: every record with that id is dropped. */
  function Delete(s: State, userId: int, response: Outcome<()>): (s': State)
    ensures response.Failure? ==> s' == s
    ensures s'.newUser == s.newUser && s'.updateUser == s.updateUser
    ensures response.Success? ==> forall u :: u in s'.users <==> u in s.users && u.id != userId
    ensures response.Success? ==> !HasId(s'.users, userId)
    ensures response.Success? && UniqueIds(s.users) ==>
      |s'.users| == |s.users| - (if HasId(s.users, userId) then 1 else 0)
  {
    match response
    case Failure => s
    case Success(_) =>
      DeleteCount(s.users, userId);
      s.(users := Remove(s.users, userId))
  }

  /** Deleting the record just created gives back the list from before. */
  lemma CreateThenDelete(s: State, created: User)
    requires !HasId(s.users, created.id)
    ensures Delete(Create(s, Success(created)), created.id, Success(())).users == s.users
  {
    RemoveAppend([created], s.users, created.id);
    RemoveAbsent(s.users, created.id);
    assert Remove([created], created.id) == [];
  }

  // Events

  datatype Event =
    | Loaded(fetched: Outcome<seq<User>>)
    | Created(created: Outcome<User>)
    | Updated(updated: Outcome<()>)
    | Deleted(userId: int, deleted: Outcome<()>)

  predicate Failed(e: Event) {
    match e
    case Loaded(o) => o.Failure?
    case Created(o) => o.Failure?
    case Updated(o) => o.Failure?
    case Deleted(_, o) => o.Failure?
  }

  function Step(s: State, e: Event): State {
    match e
    case Loaded(o) => Load(s, o)
    case Created(o) => Create(s, o)
    case Updated(o) => Update(s, o)
    case Deleted(id, o) => Delete(s, id, o)
  }

  /** A call that fails leaves the list and both drafts as they were. */
  lemma FailedCallKeepsState(s: State, e: Event)
    requires Failed(e)
    ensures Step(s, e) == s
  {
  }

  /** What the server promises: fetched ids are distinct, a created id is new. */
  predicate ServerConsistent(s: State, e: Event) {
    match e
    case Loaded(Success(data)) => UniqueIds(data)
    case Created(Success(u)) => !HasId(s.users, u.id)
    case _ => true
  }

  /** A list led by `u` has distinct ids exactly when the rest does and does not use `u`'s id. */
  lemma UniqueIdsCons(u: User, rest: seq<User>)
    ensures UniqueIds([u] + rest) <==> UniqueIds(rest) && !HasId(rest, u.id)
  {
    var r := [u] + rest;
    if UniqueIds(r) {
      forall i, j | 0 <= i < j < |rest| ensures rest[i].id != rest[j].id {
        assert rest[i] == r[i + 1] && rest[j] == r[j + 1];
      }
      forall v | v in rest ensures v.id != u.id {
        var j :| 0 <= j < |rest| && rest[j] == v;
        assert r[0] == u && r[j + 1] == v;
      }
    }
    if UniqueIds(rest) && !HasId(rest, u.id) {
      forall i, j | 0 <= i < j < |r| ensures r[i].id != r[j].id {
        if i == 0 {
          assert r[j] in rest;
        } else {
          assert r[i] == rest[i - 1] && r[j] == rest[j - 1];
        }
      }
    }
  }

  lemma {:induction false} RemoveKeepsUniqueIds(users: seq<User>, id: int)
    requires UniqueIds(users)
    ensures UniqueIds(Remove(users, id))
  {
    if users != [] {
      var tail := users[1..];
      assert users == [users[0]] + tail;
      UniqueIdsCons(users[0], tail);
      RemoveKeepsUniqueIds(tail, id);
      var rest := Remove(tail, id);
      if users[0].id != id {
        assert Remove(users, id) == [users[0]] + rest;
        assert !HasId(rest, users[0].id);
        UniqueIdsCons(users[0], rest);
      }
    }
  }

  /** Every transition keeps record ids distinct, given a consistent server. */
  lemma StepKeepsUniqueIds(s: State, e: Event)
    requires UniqueIds(s.users) && ServerConsistent(s, e)
    ensures UniqueIds(Step(s, e).users)
  {
    match e
    case Loaded(Success(data)) =>
      var r := Reverse(data);
      forall i, j | 0 <= i < j < |r| ensures r[i].id != r[j].id {
        assert r[i] == data[|data| - 1 - i] && r[j] == data[|data| - 1 - j];
      }
    case Created(Success(u)) =>
      UniqueIdsCons(u, s.users);
    case Updated(Success(_)) =>
    case Deleted(id, Success(_)) =>
      RemoveKeepsUniqueIds(s.users, id);
    case _ =>
  }
}
