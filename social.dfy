/** Rule helpers of the ISUCON5 application (5/webapp/go/app.go): the
    `substring` template function, the encoding of a diary entry's title and
    content into one body and its `SplitN` decoding, the permission and
    footprint rules, the mutual friend insert, and the mapping from a
    handler's panic to an HTTP status. Go strings are byte strings here. */
module Social {
  import opened Wrappers
  import opened UserCache

  newtype byte = x: int | 0 <= x < 256

  type Bytes = seq<byte>

  const Newline: byte := 10

  /** "タイトルなし" in UTF-8: the title of an entry posted without one. */
  const DefaultTitle: Bytes := [0xE3, 0x82, 0xBF, 0xE3, 0x82, 0xA4, 0xE3, 0x83, 0x88,
                                0xE3, 0x83, 0xAB, 0xE3, 0x81, 0xAA, 0xE3, 0x81, 0x97]

  /** A Go run-time panic (a slice or index out of range). */
  datatype Panic = OutOfRange

  function Min(a: int, b: int): int
  {
    if a <= b then a else b
  }

  /** The `substring` template function: `s` when it is at most `l` bytes,
      its first `l` bytes otherwise. A negative `l` is shorter than every
      string and the slice `s[:l]` panics. */
  function Substring(s: Bytes, l: int): (r: Result<Bytes, Panic>)
    ensures r.Success? <==> 0 <= l
    ensures r.Success? ==> r.value <= s && |r.value| == Min(|s|, l)
  {
    if |s| > l then
      if l < 0 then Failure(OutOfRange) else Success(s[..l])
    else Success(s)
  }

  /** A row of the `entries` table as `PostEntry` inserts it. */
  datatype EntryRow = EntryRow(userId: int, private: int, body: Bytes)

  /** `PostEntry`'s insert: the title, a newline and the content in one body,
      an empty title replaced by "タイトルなし"; private is 0 exactly when the
      form field is empty. */
  function PostEntryRow(userId: int, title: Bytes, content: Bytes, privateField: Bytes): (r: EntryRow)
    ensures r.userId == userId
    ensures r.private == 0 <==> privateField == []
    ensures r.private == 0 || r.private == 1
    ensures var t := if title == [] then DefaultTitle else title;
            |r.body| == |t| + 1 + |content| && r.body[..|t|] == t && r.body[|t|] == Newline && r.body[|t| + 1..] == content
  {
    var t := if title == [] then DefaultTitle else title;
    EntryRow(userId, if privateField == [] then 0 else 1, t + [Newline] + content)
  }

  /** The first index of a newline in `s`, if any. */
  function IndexNewline(s: Bytes): (r: Option<nat>)
    ensures r.Some? ==> r.value < |s| && s[r.value] == Newline && Newline !in s[..r.value]
    ensures r.None? <==> Newline !in s
  {
    if |s| == 0 then None
    else if s[0] == Newline then Some(0)
    else
      var r := IndexNewline(s[1..]);
      assert s[1..] == s[1..][..|s[1..]|];
      if r.None? then None
      else
        assert s[..r.value + 1] == [s[0]] + s[1..][..r.value];
        Some(r.value + 1)
  }

  /** `strings.SplitN(s, "\n", 2)`: the whole string when it has no newline,
      otherwise the parts before and after the first newline. */
  function SplitN2(s: Bytes): (parts: seq<Bytes>)
    ensures 1 <= |parts| <= 2
    ensures |parts| == 1 <==> Newline !in s
    ensures |parts| == 1 ==> parts[0] == s
    ensures |parts| == 2 ==> s == parts[0] + [Newline] + parts[1] && Newline !in parts[0]
  {
    match IndexNewline(s)
    case None => [s]
    case Some(i) =>
      assert s == s[..i] + [Newline] + s[i + 1..];
      [s[..i], s[i + 1..]]
  }

  /** The entry as the readers build it: `private == 1`, and the title and
      content taken as `SplitN(body, "\n", 2)[0]` and `[1]`; the second index
      panics for a body without a newline. */
  datatype Entry = Entry(userId: int, private: bool, title: Bytes, content: Bytes)

  function ReadEntry(row: EntryRow): (r: Result<Entry, Panic>)
    ensures r.Success? <==> Newline in row.body
  {
    var parts := SplitN2(row.body);
    if |parts| < 2 then Failure(OutOfRange)
    else Success(Entry(row.userId, row.private == 1, parts[0], parts[1]))
  }

  lemma DefaultTitleHasNoNewline()
    ensures Newline !in DefaultTitle
  {
  }

  /** An entry posted with a title free of newlines reads back as posted:
      the same title (or the default), the same content, newlines in it
      included, and private exactly when the form field was non-empty. */
  lemma ReadPostedEntry(userId: int, title: Bytes, content: Bytes, privateField: Bytes)
    requires Newline !in title
    ensures ReadEntry(PostEntryRow(userId, title, content, privateField)) ==
            Success(Entry(userId, privateField != [], if title == [] then DefaultTitle else title, content))
  {
    var t := if title == [] then DefaultTitle else title;
    var body := t + [Newline] + content;
    var parts := SplitN2(body);
    assert Newline in body by {
      assert body[|t|] == Newline;
    }
    NewlineFreeSplit(t, content, parts[0], parts[1]);
  }

  /** The first newline of `a + "\n" + b` is the one after `a` when `a` has none. */
  lemma {:induction false} FirstNewlineAfter(a: Bytes, b: Bytes)
    requires Newline !in a
    ensures IndexNewline(a + [Newline] + b) == Some(|a|)
  {
    if |a| > 0 {
      assert a[0] in a;
      FirstNewlineAfter(a[1..], b);
      assert (a + [Newline] + b)[1..] == a[1..] + [Newline] + b;
    }
  }

  /** The part before the first newline is determined by the first newline. */
  lemma NewlineFreeSplit(a: Bytes, b: Bytes, c: Bytes, d: Bytes)
    requires Newline !in a && Newline !in c
    requires a + [Newline] + b == c + [Newline] + d
    ensures a == c && b == d
  {
    var s := a + [Newline] + b;
    FirstNewlineAfter(a, b);
    FirstNewlineAfter(c, d);
    assert a == s[..|a|] == c;
    assert b == s[|a| + 1..] == d;
  }

  /** A title with a newline does not survive: its tail moves into the
      content. */
  lemma NewlineInTitleMovesIntoContent()
    ensures ReadEntry(PostEntryRow(1, [0x61, Newline, 0x62], [0x63], [])) ==
            Success(Entry(1, false, [0x61], [0x62, Newline, 0x63]))
  {
    var body: Bytes := [0x61, Newline, 0x62, Newline, 0x63];
    assert PostEntryRow(1, [0x61, Newline, 0x62], [0x63], []).body == body;
    var parts := SplitN2(body);
    assert body == [0x61] + [Newline] + [0x62, Newline, 0x63];
    NewlineFreeSplit([0x61], [0x62, Newline, 0x63], parts[0], parts[1]);
  }

  /** A row of `relations`: `one` lists `another` as a friend. */
  datatype Relation = Relation(one: int, another: int)

  /** A row of `footprints`: `ownerId` visited the page of `userId`. */
  datatype Footprint = Footprint(userId: int, ownerId: int)

  /** `isFriend`: some relation row goes from the session's user to `anotherId`. */
  predicate IsFriend(relations: seq<Relation>, sessionUserId: int, anotherId: int)
  {
    exists i :: 0 <= i < |relations| && relations[i] == Relation(sessionUserId, anotherId)
  }

  /** `permitted(userID, anotherID)`: the same user, or a friend of the
      session's user (`isFriend` reads the session, not `userID`). */
  predicate Permitted(relations: seq<Relation>, sessionUserId: int, userId: int, anotherId: int): (b: bool)
    ensures anotherId == userId ==> b
    ensures !b ==> Relation(sessionUserId, anotherId) !in relations
  {
    anotherId == userId || IsFriend(relations, sessionUserId, anotherId)
  }

  /** A user may always see their own content, friends or not; anyone else
      exactly when the session's user has them as a friend. */
  lemma PermittedCases(relations: seq<Relation>, sessionUserId: int, userId: int, anotherId: int)
    ensures anotherId == userId ==> Permitted(relations, sessionUserId, userId, anotherId)
    ensures anotherId != userId ==>
              (Permitted(relations, sessionUserId, userId, anotherId) <==>
               exists i :: 0 <= i < |relations| && relations[i] == Relation(sessionUserId, anotherId))
  {
  }

  /** The application's sentinel errors. */
  datatype AppError = ErrAuthentication | ErrPermissionDenied | ErrContentNotFound

  /** The tables the two inserting helpers write. Database errors panic via
      `checkErr` and are not modelled: every insert succeeds. */
  class SocialDb {
    var relations: seq<Relation>
    var footprints: seq<Footprint>

    constructor (relations: seq<Relation>, footprints: seq<Footprint>)
      ensures this.relations == relations && this.footprints == footprints
    {
      this.relations := relations;
      this.footprints := footprints;
    }

    /** `markFootprint(user, id)`: a signed-in user viewing someone else's
        page `id` leaves one footprint; viewing one's own page, or viewing
        signed out, leaves none. */
    method MarkFootprint(user: Option<User>, id: int)
      modifies this
      ensures user.Some? && user.value.id != id ==>
                footprints == old(footprints) + [Footprint(id, user.value.id)]
      ensures user.None? || user.value.id == id ==> footprints == old(footprints)
      ensures relations == old(relations)
    {
      if user.Some? && user.value.id != id {
        footprints := footprints + [Footprint(id, user.value.id)];
      }
    }

    /** `PostFriends` for the signed-in user `me` and the account name in the
        path: an unknown account is `ErrContentNotFound`; otherwise, unless
        `me` already lists that user, both directions are inserted and the
        handler redirects (`Success(true)`); an existing friendship writes
        nothing (`Success(false)`). */
    method PostFriends(me: User, accounts: map<string, User>, anotherAccount: string)
      returns (r: Result<bool, AppError>)
      modifies this
      ensures anotherAccount !in accounts ==> r == Failure(ErrContentNotFound) && relations == old(relations)
      ensures anotherAccount in accounts ==>
                var another := accounts[anotherAccount];
                if IsFriend(old(relations), me.id, another.id)
                then r == Success(false) && relations == old(relations)
                else r == Success(true) &&
                     relations == old(relations) + [Relation(me.id, another.id), Relation(another.id, me.id)]
      ensures r.Success? ==> IsFriend(relations, me.id, accounts[anotherAccount].id)
      ensures footprints == old(footprints)
    {
      if anotherAccount !in accounts {
        return Failure(ErrContentNotFound);
      }
      var another := accounts[anotherAccount];
      if !IsFriend(relations, me.id, another.id) {
        relations := relations + [Relation(me.id, another.id), Relation(another.id, me.id)];
        assert relations[|relations| - 2] == Relation(me.id, another.id);
        r := Success(true);
      } else {
        r := Success(false);
      }
    }
  }

  /** After a successful `PostFriends` the friendship holds both ways, and
      posting it again inserts nothing. */
  method BefriendTwice(db: SocialDb, me: User, accounts: map<string, User>, name: string)
    returns (first: Result<bool, AppError>, second: Result<bool, AppError>)
    requires name in accounts
    modifies db
    ensures first.Success? && second == Success(false)
    ensures IsFriend(db.relations, accounts[name].id, me.id) || IsFriend(old(db.relations), me.id, accounts[name].id)
    ensures IsFriend(db.relations, me.id, accounts[name].id)
  {
    first := db.PostFriends(me, accounts, name);
    if first == Success(true) {
      assert db.relations[|db.relations| - 1] == Relation(accounts[name].id, me.id);
    }
    second := db.PostFriends(me, accounts, name);
  }

  /** What `recover` hands the deferred function of `myHandler`: one of the
      sentinel errors, another error value (run-time errors included, with
      its message), a string, or any other value. */
  datatype PanicValue = Sentinel(e: AppError) | OtherError(msg: string) | StringValue(s: string) | OtherValue

  /** The handler's response: whatever the wrapped handler wrote when it did
      not panic; a rendered page or plain error with a status; or a second
      panic inside the deferred function, which leaves no response. */
  datatype Outcome =
    | Completed
    | Page(status: int, clearsUserId: bool, template: string)
    | PlainError(status: int, msg: string)
    | Repanic

  /** `myHandler` as written: the last assignment to the message asserts that
      the recovered value is an `error`, which panics for a string or any
      other non-error value. */
  function HandlerOutcome(p: Option<PanicValue>): (o: Outcome)
    ensures o == Completed <==> p.None?
    ensures o == Repanic <==> p.Some? && (p.value.StringValue? || p.value.OtherValue?)
    ensures o.PlainError? <==> p.Some? && p.value.OtherError?
  {
    match p
    case None => Completed
    case Some(Sentinel(ErrAuthentication)) => Page(401, true, "login.html")
    case Some(Sentinel(ErrPermissionDenied)) => Page(403, false, "error.html")
    case Some(Sentinel(ErrContentNotFound)) => Page(404, false, "error.html")
    case Some(OtherError(msg)) => PlainError(500, msg)
    case Some(StringValue(_)) => Repanic
    case Some(OtherValue) => Repanic
  }

  /** `myHandler` with the message taken from whichever case matched: a
      string panic reports the string, any other value an empty message. */
  function HandlerOutcomeCorrected(p: Option<PanicValue>): (o: Outcome)
    ensures o == Completed <==> p.None?
    ensures o != Repanic
    ensures o.PlainError? <==> p.Some? && !p.value.Sentinel?
  {
    match p
    case Some(StringValue(s)) => PlainError(500, s)
    case Some(OtherValue) => PlainError(500, "")
    case _ => HandlerOutcome(p)
  }

  function StatusOf(o: Outcome): Option<int>
  {
    match o
    case Page(status, _, _) => Some(status)
    case PlainError(status, _) => Some(status)
    case _ => None
  }

  /** The status mapping of `myHandler`: 401 for an authentication error,
      which alone also clears `user_id`, 403 for a permission error, 404 for
      missing content, 500 for any other error value with its message. */
  lemma HandlerStatuses(p: PanicValue)
    ensures p == Sentinel(ErrAuthentication) <==> StatusOf(HandlerOutcome(Some(p))) == Some(401)
    ensures p == Sentinel(ErrPermissionDenied) <==> StatusOf(HandlerOutcome(Some(p))) == Some(403)
    ensures p == Sentinel(ErrContentNotFound) <==> StatusOf(HandlerOutcome(Some(p))) == Some(404)
    ensures p.OtherError? <==> StatusOf(HandlerOutcome(Some(p))) == Some(500)
    ensures p.OtherError? ==> HandlerOutcome(Some(p)) == PlainError(500, p.msg)
    ensures HandlerOutcome(Some(p)).Page? && HandlerOutcome(Some(p)).clearsUserId <==> p == Sentinel(ErrAuthentication)
    ensures HandlerOutcome(None) == Completed
  {
  }

  /** As written, a string panic escapes the handler without a response. */
  lemma StringPanicEscapes()
    ensures HandlerOutcome(Some(StringValue("boom"))) == Repanic
    ensures HandlerOutcomeCorrected(Some(StringValue("boom"))) == PlainError(500, "boom")
  {
  }

  /** Corrected, every panic gets a response, and the error-valued panics get
      the same response as before. */
  lemma CorrectedHandlerAlwaysResponds(p: PanicValue)
    ensures StatusOf(HandlerOutcomeCorrected(Some(p))).Some?
    ensures !p.StringValue? && !p.OtherValue? ==> HandlerOutcomeCorrected(Some(p)) == HandlerOutcome(Some(p))
    ensures p.StringValue? ==> HandlerOutcomeCorrected(Some(p)) == PlainError(500, p.s)
  {
  }
}
