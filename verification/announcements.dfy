/** The administrators' announcement board (`AdminAnnouncementsServlet`):
    a list held in memory, newest first, and a counter that hands out ids.
    The board is a value here and every request maps a board to a board
    and a reply. The clock is the parameter `now`; the JSON request body
    arrives parsed (`None` for the JSON literal null), or as the parser's
    exception.
 */
module Announcements {
  import opened Wrappers
  import opened Text

  /** A value of the request body as an item keeps it: a string, JSON
      null, or any other JSON value (kept as its text). */
  datatype Value = Str(text: string) | Null | Other(json: string)

  type Body = map<string, Value>

  datatype Item = Item(id: int, title: Value, author: Value, content: Value, createdAt: int)

  /** The list, newest first, and the last id the counter handed out. */
  datatype Board = Board(items: seq<Item>, lastId: int)

  datatype Reply =
    | Listed(items: seq<Item>)
    | Saved(item: Item)
    | Deleted(success: bool)
    | Failed(message: string)
      // the `NullPointerException` a JSON null body causes: success false,
      // with that exception's message
    | NullBody
      // an exception outside the handler's try block: the container answers
    | Crashed

  const MISSING_ID := "缺少 id"
  const NOT_FOUND := "未找到公告"

  /** The board as the class initialiser leaves it: the welcome item with id
      1, and the counter at 1000. */
  function Initial(now: int): (b: Board)
    ensures Valid(b)
    ensures b.lastId == 1000 && |b.items| == 1 && HasId(b.items, 1)
  {
    var welcome := Item(1, Str("欢迎使用管理员控制台（后端示例）"), Str("系统"), Str("这是后端示例的公告，前端请求成功。"), now);
    assert [welcome][0].id == 1;
    Board([welcome], 1000)
  }

  /** `Map.getOrDefault`: a key that is present wins even when its value is
      JSON null. */
  function Lookup(body: Body, key: string, default: Value): (v: Value)
    ensures key in body ==> v == body[key]
    ensures key !in body ==> v == default
  {
    if key in body then body[key] else default
  }

  predicate HasId(items: seq<Item>, id: int)
  {
    exists k :: 0 <= k < |items| && items[k].id == id
  }

  /** Ids fall strictly along the list: the newest item is first. */
  predicate Descending(items: seq<Item>)
  {
    forall i, j :: 0 <= i < j < |items| ==> items[i].id > items[j].id
  }

  /** What every reachable board satisfies: ids fall along the list and
      none is above the counter, so the next id is new. */
  predicate Valid(b: Board)
  {
    Descending(b.items) && forall i :: 0 <= i < |b.items| ==> b.items[i].id <= b.lastId
  }

  // ---------------------------------------------------------------------
  // GET

  function Get(b: Board): Reply
  {
    Listed(b.items)
  }

  // ---------------------------------------------------------------------
  // POST

  /** `doPost`: a body the parser rejects changes nothing (the counter is
      only advanced after parsing); a JSON null body advances the counter
      and then fails on its first field; otherwise the next id, the fields
      of the body or their defaults, and the new item goes in front. */
  function Post(b: Board, body: Outcome<Option<Body>>, now: int): (r: (Board, Reply))
    ensures body.Exn? ==> r == (b, Failed(body.msg))
    ensures body == Ok(None) ==> r == (b.(lastId := b.lastId + 1), NullBody)
    ensures r.1.Saved? <==> body.Ok? && body.v.Some?
    ensures r.1.Saved? ==> r.0 == Board([r.1.item] + b.items, b.lastId + 1)
    ensures r.1.Saved? ==> r.1.item == Item(b.lastId + 1,
                                            Lookup(body.v.value, "title", Str("(无标题)")),
                                            Lookup(body.v.value, "author", Str("管理员")),
                                            Lookup(body.v.value, "content", Str("")),
                                            now)
  {
    if body.Exn? then (b, Failed(body.msg))
    else
      var id := b.lastId + 1;
      if body.v.None? then (b.(lastId := id), NullBody)
      else
        var fields := body.v.value;
        var m := Item(id, Lookup(fields, "title", Str("(无标题)")), Lookup(fields, "author", Str("管理员")),
                      Lookup(fields, "content", Str("")), now);
        (Board([m] + b.items, id), Saved(m))
  }

  /** Two posts in a row that both save get consecutive ids above the
      counter, the later one in front; on the initial board these are
      1001 and 1002. */
  lemma PostIdsCount(b: Board, x: Outcome<Option<Body>>, y: Outcome<Option<Body>>, t1: int, t2: int)
    requires x.Ok? && x.v.Some? && y.Ok? && y.v.Some?
    ensures var (b1, r1) := Post(b, x, t1);
            var (b2, r2) := Post(b1, y, t2);
            r1.item.id == b.lastId + 1 && r2.item.id == b.lastId + 2
            && b2.items == [r2.item, r1.item] + b.items && b2.lastId == b.lastId + 2
    ensures b.lastId == 1000 ==> Post(b, x, t1).1.item.id == 1001
  {
  }

  /** A post keeps the board valid: its id is above every other. */
  lemma PostValid(b: Board, body: Outcome<Option<Body>>, now: int)
    requires Valid(b)
    ensures Valid(Post(b, body, now).0)
  {
    if body.Ok? && body.v.Some? {
      var items := Post(b, body, now).0.items;
      forall i, j | 0 <= i < j < |items|
        ensures items[i].id > items[j].id
      {
        if i > 0 {
          assert items[i] == b.items[i - 1] && items[j] == b.items[j - 1];
        } else {
          assert items[j] == b.items[j - 1];
        }
      }
    }
  }

  // ---------------------------------------------------------------------
  // The id in the path

  /** How the id in the path fares. */
  datatype PathArg = NoId | NoSegment | NotANumber(text: string) | Id(value: int)

  /** `path.substring(1).split("/")[0]`, then `Long.parseLong`. A path made
      of slashes alone splits into no field, and indexing it throws before
      the handler's try block. */
  function PathId(path: Option<string>): (r: PathArg)
    ensures r.NoId? <==> path.None? || |path.value| <= 1
    ensures r.Id? ==> InLong(r.value)
  {
    if path.None? || |path.value| <= 1 then NoId
    else
      var fields := JavaSplit(path.value[1..], '/');
      if fields == [] then NoSegment
      else
        match ParseLong(fields[0])
        case None => NotANumber(fields[0])
        case Some(v) => Id(v)
  }

  /** The message of Java's `NumberFormatException` for a decimal parse. */
  function NumberMessage(text: string): string
  {
    "For input string: \"" + text + "\""
  }

  /** The path a client writes for an id, with or without more segments
      after it, gives that id back. */
  lemma PathIdRoundTrip(id: int, rest: string)
    requires InLong(id)
    ensures PathId(Some("/" + IntToString(id))) == Id(id)
    ensures PathId(Some("/" + IntToString(id) + "/" + rest)) == Id(id)
  {
    var t := IntToString(id);
    DigitsHaveNoSlash(id);
    assert ("/" + t)[1..] == t;
    ParseLongRoundTrip(id);
    var u := "/" + t + "/" + rest;
    assert u[1..] == t + ['/'] + rest;
    FirstFieldOf(t, rest);
  }

  lemma DigitsHaveNoSlash(id: int)
    ensures '/' !in IntToString(id)
  {
    var t := IntToString(id);
    forall k | 0 <= k < |t|
      ensures t[k] != '/'
    {
      if id < 0 && k > 0 {
        assert t[k] == t[1..][k - 1];
      }
    }
  }

  /** The first field of a split whose first field is not empty. */
  lemma FirstFieldOf(a: string, rest: string)
    requires a != [] && '/' !in a
    ensures JavaSplit(a + ['/'] + rest, '/') != [] && JavaSplit(a + ['/'] + rest, '/')[0] == a
  {
    var s := a + ['/'] + rest;
    assert s[|a|] == '/';
    SplitAllCons(a, '/', rest);
    var r := SplitAll(s, '/');
    assert r[0] == a && r[0] != [];
  }

  /** A path of slashes alone never reaches the parser. */
  lemma SlashesCrash()
    ensures PathId(Some("//")) == NoSegment
  {
    assert "//"[1..] == "/";
    assert SplitAll("/", '/') == ["", ""] by {
      SplitAllCons("", '/', "");
      assert "" + ['/'] + "" == "/";
    }
  }

  // ---------------------------------------------------------------------
  // PUT

  /** The first index holding the id, from `from` on. */
  function FirstFrom(items: seq<Item>, id: int, from: nat): (r: Option<nat>)
    requires from <= |items|
    ensures r.Some? ==> from <= r.value < |items| && items[r.value].id == id
                        && forall k :: from <= k < r.value ==> items[k].id != id
    ensures r.None? ==> forall k :: from <= k < |items| ==> items[k].id != id
    decreases |items| - from
  {
    if from == |items| then None
    else if items[from].id == id then Some(from)
    else FirstFrom(items, id, from + 1)
  }

  /** An item after `it.put("title", …)` and `it.put("content", …)`: the
      title and content the body carries, even JSON null, replace the
      item's; its id, author and time stay. */
  function Edited(it: Item, body: Body): (r: Item)
    ensures r.id == it.id && r.author == it.author && r.createdAt == it.createdAt
    ensures "title" in body ==> r.title == body["title"]
    ensures "title" !in body ==> r.title == it.title
    ensures "content" in body ==> r.content == body["content"]
    ensures "content" !in body ==> r.content == it.content
  {
    it.(title := Lookup(body, "title", it.title), content := Lookup(body, "content", it.content))
  }

  /** `doPut`: the first item with the id takes title and content from the
      body where present; nothing else changes. A JSON null body fails
      only once an item with the id is found. */
  function Put(b: Board, path: Option<string>, body: Outcome<Option<Body>>): (r: (Board, Reply))
    ensures !r.1.Saved? ==> r.0 == b
    ensures PathId(path).NoId? ==> r.1 == Failed(MISSING_ID)
    ensures r.1.Crashed? <==> PathId(path).NoSegment?
    ensures PathId(path).NotANumber? ==> r.1 == Failed(NumberMessage(PathId(path).text))
    ensures PathId(path).Id? && body.Exn? ==> r.1 == Failed(body.msg)
    ensures r.1.Saved? <==> PathId(path).Id? && body.Ok? && body.v.Some? && HasId(b.items, PathId(path).value)
    ensures r.1.NullBody? <==> PathId(path).Id? && body == Ok(None) && HasId(b.items, PathId(path).value)
    ensures PathId(path).Id? && body.Ok? && !HasId(b.items, PathId(path).value) ==> r.1 == Failed(NOT_FOUND)
    ensures r.1.Saved? ==>
              exists i :: 0 <= i < |b.items| && b.items[i].id == PathId(path).value
                          && (forall k :: 0 <= k < i ==> b.items[k].id != PathId(path).value)
                          && r.1.item == Edited(b.items[i], body.v.value)
                          && r.0 == Board(b.items[i := r.1.item], b.lastId)
  {
    match PathId(path)
    case NoId => (b, Failed(MISSING_ID))
    case NoSegment => (b, Crashed)
    case NotANumber(t) => (b, Failed(NumberMessage(t)))
    case Id(id) =>
      if body.Exn? then (b, Failed(body.msg))
      else
        match FirstFrom(b.items, id, 0)
        case None => (b, Failed(NOT_FOUND))
        case Some(i) =>
          if body.v.None? then (b, NullBody)
          else
            var it := Edited(b.items[i], body.v.value);
            (Board(b.items[i := it], b.lastId), Saved(it))
  }

  /** Editing changes no id, so a put keeps the board valid. */
  lemma PutValid(b: Board, path: Option<string>, body: Outcome<Option<Body>>)
    requires Valid(b)
    ensures Valid(Put(b, path, body).0)
  {
    var (b2, r) := Put(b, path, body);
    if r.Saved? {
      var i :| 0 <= i < |b.items| && b2 == Board(b.items[i := r.item], b.lastId) && r.item == Edited(b.items[i], body.v.value);
      assert forall k :: 0 <= k < |b2.items| ==> b2.items[k].id == b.items[k].id;
    }
  }

  /** Putting the same body twice is putting it once. */
  lemma PutIdempotent(b: Board, path: Option<string>, body: Outcome<Option<Body>>)
    ensures var b1 := Put(b, path, body).0;
            Put(b1, path, body) == Put(b, path, body)
  {
    if PathId(path).Id? && body.Ok? && body.v.Some? {
      var id := PathId(path).value;
      match FirstFrom(b.items, id, 0)
      case None =>
      case Some(i) =>
        var it := Edited(b.items[i], body.v.value);
        var items := b.items[i := it];
        SameFirst(b.items, items, id, i);
        EditedTwice(b.items[i], body.v.value);
        assert items[i := Edited(items[i], body.v.value)] == items;
    }
  }

  /** A second edit with the same body changes nothing. */
  lemma EditedTwice(it: Item, body: Body)
    ensures Edited(Edited(it, body), body) == Edited(it, body)
  {
  }

  /** Replacing an item by one with the same id moves no first match. */
  lemma SameFirst(a: seq<Item>, c: seq<Item>, id: int, i: nat)
    requires |a| == |c| && forall k :: 0 <= k < |a| ==> a[k].id == c[k].id
    requires FirstFrom(a, id, 0) == Some(i)
    ensures FirstFrom(c, id, 0) == Some(i)
  {
    FirstFromIs(c, id, 0, i);
  }

  /** The first match is the index the characterisation names. */
  lemma {:induction false} FirstFromIs(items: seq<Item>, id: int, from: nat, i: nat)
    requires from <= i < |items| && items[i].id == id
    requires forall k :: from <= k < i ==> items[k].id != id
    ensures FirstFrom(items, id, from) == Some(i)
    decreases i - from
  {
    if from < i {
      FirstFromIs(items, id, from + 1, i);
    }
  }

  // ---------------------------------------------------------------------
  // DELETE

  /** Every item whose id differs, in order (`removeIf`). */
  function Without(items: seq<Item>, id: int): (r: seq<Item>)
    ensures forall e :: e in r <==> e in items && e.id != id
    ensures |r| <= |items|
    ensures !HasId(items, id) ==> r == items
    ensures HasId(items, id) ==> |r| < |items|
  {
    if items == [] then []
    else
      var rest := Without(items[1..], id);
      assert HasId(items[1..], id) ==> HasId(items, id) by {
        if HasId(items[1..], id) {
          var k :| 0 <= k < |items[1..]| && items[1..][k].id == id;
          assert items[k + 1].id == id;
        }
      }
      assert !HasId(items, id) ==> items == [items[0]] + items[1..];
      if items[0].id == id then rest else [items[0]] + rest
  }

  /** `doDelete`: every item with the id goes, and the reply says whether
      one did. */
  function Delete(b: Board, path: Option<string>): (r: (Board, Reply))
    ensures !r.1.Deleted? ==> r.0 == b
    ensures r.1 == Failed(MISSING_ID) <==> PathId(path).NoId?
    ensures r.1.Crashed? <==> PathId(path).NoSegment?
    ensures PathId(path).NotANumber? ==> r.1 == Failed(NumberMessage(PathId(path).text))
    ensures r.1.Deleted? <==> PathId(path).Id?
    ensures r.1.Deleted? ==> (r.1.success <==> HasId(b.items, PathId(path).value))
    ensures r.1.Deleted? ==> r.0.lastId == b.lastId
                             && forall e :: e in r.0.items <==> e in b.items && e.id != PathId(path).value
  {
    match PathId(path)
    case NoId => (b, Failed(MISSING_ID))
    case NoSegment => (b, Crashed)
    case NotANumber(t) => (b, Failed(NumberMessage(t)))
    case Id(id) => (Board(Without(b.items, id), b.lastId), Deleted(HasId(b.items, id)))
  }

  /** Removal keeps the order, so a delete keeps the board valid. */
  lemma {:induction false} WithoutDescending(items: seq<Item>, id: int)
    requires Descending(items)
    ensures Descending(Without(items, id))
    decreases |items|
  {
    if items != [] {
      var tail := items[1..];
      assert Descending(tail) by {
        forall i, j | 0 <= i < j < |tail| ensures tail[i].id > tail[j].id {
          assert tail[i] == items[i + 1] && tail[j] == items[j + 1];
        }
      }
      WithoutDescending(tail, id);
      var rest := Without(tail, id);
      if items[0].id != id {
        var r := [items[0]] + rest;
        forall i, j | 0 <= i < j < |r| ensures r[i].id > r[j].id {
          assert r[j] == rest[j - 1];
          if i > 0 {
            assert r[i] == rest[i - 1];
          } else {
            assert rest[j - 1] in tail;
            var k :| 0 <= k < |tail| && tail[k] == rest[j - 1];
            assert items[k + 1] == tail[k];
          }
        }
      }
    }
  }

  lemma DeleteValid(b: Board, path: Option<string>)
    requires Valid(b)
    ensures Valid(Delete(b, path).0)
  {
    if PathId(path).Id? {
      var id := PathId(path).value;
      WithoutDescending(b.items, id);
      var items := Without(b.items, id);
      forall i | 0 <= i < |items| ensures items[i].id <= b.lastId {
        assert items[i] in b.items;
      }
    }
  }

  /** Deleting the item just posted takes the board back, but for the
      counter, which never goes back. */
  lemma DeleteUndoesPost(b: Board, body: Outcome<Option<Body>>, now: int)
    requires Valid(b) && body.Ok? && body.v.Some? && InLong(b.lastId + 1)
    ensures var (b1, r1) := Post(b, body, now);
            Delete(b1, Some("/" + IntToString(r1.item.id)))
              == (Board(b.items, b.lastId + 1), Deleted(true))
  {
    var (b1, r1) := Post(b, body, now);
    var id := b.lastId + 1;
    PathIdRoundTrip(id, "");
    assert b1.items[0].id == id;
    assert HasId(b1.items, id);
    forall k | 0 <= k < |b.items|
      ensures b.items[k].id != id
    {
      assert b.items[k].id <= b.lastId;
    }
    assert b1.items[1..] == b.items;
  }

  /** On a valid board at most one item has a given id, so a delete takes
      away at most one. */
  lemma DeleteRemovesOne(b: Board, path: Option<string>)
    requires Valid(b) && PathId(path).Id? && HasId(b.items, PathId(path).value)
    ensures |Delete(b, path).0.items| == |b.items| - 1
  {
    var id := PathId(path).value;
    var k :| 0 <= k < |b.items| && b.items[k].id == id;
    WithoutOnly(b.items, id, k);
  }

  lemma {:induction false} WithoutOnly(items: seq<Item>, id: int, k: nat)
    requires Descending(items) && k < |items| && items[k].id == id
    ensures |Without(items, id)| == |items| - 1
    decreases |items|
  {
    var tail := items[1..];
    assert Descending(tail) by {
      forall i, j | 0 <= i < j < |tail| ensures tail[i].id > tail[j].id {
        assert tail[i] == items[i + 1] && tail[j] == items[j + 1];
      }
    }
    if k == 0 {
      forall m | 0 <= m < |tail|
        ensures tail[m].id != id
      {
        assert items[m + 1] == tail[m];
      }
    } else {
      assert tail[k - 1].id == id;
      WithoutOnly(tail, id, k - 1);
    }
  }
}
