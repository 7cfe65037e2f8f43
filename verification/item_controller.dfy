/**
 The REST service's item endpoints under /api/items. The JPA repository is an
 abstract table: a finite map from id to the stored name and price, plus the
 identity generator's next value. Every handler is a pure function from the
 store (and the request) to the new store and the HTTP reply.
 */
module ItemController {
  import opened Wrappers
  import Decimal

  /** What the table holds for one id. */
  datatype Row = Row(name: string, price: real)

  /** An item as the service returns it, id included. */
  datatype Item = Item(id: int, name: string, price: real)

  /** A request body: the fields the handlers read from the posted item. */
  datatype ItemBody = ItemBody(name: string, price: real)

  /** The table and the identity generator. */
  datatype Repo = Repo(rows: map<int, Row>, nextId: int)

  /** Every stored id was handed out by the generator, which never hands one out twice. */
  predicate Valid(r: Repo) {
    && r.nextId >= 1
    && forall id :: id in r.rows ==> 1 <= id < r.nextId
  }

  type Store = r: Repo | Valid(r) witness Repo(map[], 1)

  const OK: int := 200
  const CREATED: int := 201
  const NO_CONTENT: int := 204
  const NOT_FOUND: int := 404

  /** The path prefix the controller is mapped to, as used in a Location header. */
  const ITEMS_PATH: string := "/api/items/"

  datatype Reply = Reply(status: int, body: Option<Item>, location: Option<string>)

  /** The store after a handler ran, and what the handler answered. */
  datatype Step = Step(repo: Store, reply: Reply)

  function Entry(rows: map<int, Row>, id: int): Item
    requires id in rows
  {
    Item(id, rows[id].name, rows[id].price)
  }

  function IdsOf(items: seq<Item>): set<int> {
    set i | 0 <= i < |items| :: items[i].id
  }

  /** The ids of `items` strictly increase. */
  predicate Ascending(items: seq<Item>) {
    forall i, j :: 0 <= i < j < |items| ==> items[i].id < items[j].id
  }

  /** `items` lists exactly the rows of `rows`, each once, in ascending id order. */
  predicate Lists(items: seq<Item>, rows: map<int, Row>) {
    && IdsOf(items) == rows.Keys
    && (forall i :: 0 <= i < |items| ==> items[i].id in rows && items[i] == Entry(rows, items[i].id))
    && Ascending(items)
  }

  lemma {:induction false} MinExists(ids: set<int>)
    requires ids != {}
    ensures exists m :: m in ids && forall id :: id in ids ==> m <= id
    decreases |ids|
  {
    NonEmptyHasElement(ids);
    var x :| x in ids;
    if ids != {x} {
      var others := ids - {x};
      MinExists(others);
      var m :| m in others && forall id :: id in others ==> m <= id;
      var least := if x < m then x else m;
      forall id | id in ids ensures least <= id {
        if id != x { assert id in others; }
      }
      assert least in ids;
    } else {
      assert forall id :: id in ids ==> x <= id;
    }
  }

  lemma NonEmptyHasElement(ids: set<int>)
    requires ids != {}
    ensures exists x :: x in ids
  {
    if forall x :: x !in ids { assert false; }
  }

  /** The least id of a non-empty set of ids. */
  function MinId(ids: set<int>): (m: int)
    requires ids != {}
    ensures m in ids && forall id :: id in ids ==> m <= id
  {
    MinExists(ids);
    var m :| m in ids && forall id :: id in ids ==> m <= id;
    m
  }

  /**
   GET /api/items: every stored item. findAll promises no order; this model
   lists in ascending id order.
   */
  function All(repo: Store): (r: seq<Item>)
    ensures Lists(r, repo.rows)
    decreases repo.rows.Keys
  {
    if repo.rows == map[] then []
    else
      var first := MinId(repo.rows.Keys);
      var rest := All(repo.(rows := repo.rows - {first}));
      ListsCons(repo.rows, first, rest);
      [Entry(repo.rows, first)] + rest
  }

  /** Putting the least row in front of a listing of the others lists the whole table. */
  lemma ListsCons(rows: map<int, Row>, first: int, rest: seq<Item>)
    requires first in rows && forall id :: id in rows ==> first <= id
    requires Lists(rest, rows - {first})
    ensures Lists([Entry(rows, first)] + rest, rows)
  {
    var r := [Entry(rows, first)] + rest;
    IdsOfCons(Entry(rows, first), rest);
    forall i | 0 <= i < |r| ensures r[i].id in rows && r[i] == Entry(rows, r[i].id) {
      if i > 0 { assert r[i] == rest[i - 1]; }
    }
    forall i, j | 0 <= i < j < |r| ensures r[i].id < r[j].id {
      assert r[j] == rest[j - 1];
      assert rest[j - 1].id in rows - {first};
      if i > 0 { assert r[i] == rest[i - 1]; }
    }
  }

  lemma IdsOfCons(head: Item, rest: seq<Item>)
    ensures IdsOf([head] + rest) == {head.id} + IdsOf(rest)
  {
    var r := [head] + rest;
    forall id | id in IdsOf(r) ensures id in {head.id} + IdsOf(rest) {
      var i :| 0 <= i < |r| && r[i].id == id;
      if i > 0 { assert rest[i - 1].id == id; }
    }
    forall id | id in IdsOf(rest) ensures id in IdsOf(r) {
      var i :| 0 <= i < |rest| && rest[i].id == id;
      assert r[i + 1].id == id;
    }
    assert r[0].id == head.id;
  }

  /** POST /api/items: saves the body under a fresh id and answers 201 with a Location. */
  function Add(repo: Store, body: ItemBody): (r: Step)
    ensures var id := repo.nextId;
      && id !in repo.rows
      && r.repo.rows.Keys == repo.rows.Keys + {id}
      && id in r.repo.rows
      && r.repo.rows[id] == Row(body.name, body.price)
      && r.reply.status == CREATED
      && r.reply.body == Some(Item(id, body.name, body.price))
      && r.reply.location == Some(ITEMS_PATH + Decimal.Show(id))
      && |r.reply.location.value| > |ITEMS_PATH|
      && r.reply.location.value[..|ITEMS_PATH|] == ITEMS_PATH
      && Decimal.Read(r.reply.location.value[|ITEMS_PATH|..]) == Some(id)
    ensures forall id :: id in repo.rows ==> r.repo.rows[id] == repo.rows[id]
    ensures r.repo.nextId > repo.nextId
  {
    var id := repo.nextId;
    var saved := Repo(repo.rows[id := Row(body.name, body.price)], id + 1);
    var location := ITEMS_PATH + Decimal.Show(id);
    assert location[|ITEMS_PATH|..] == Decimal.Show(id);
    Decimal.ReadShow(id);
    Step(saved, Reply(CREATED, Some(Item(id, body.name, body.price)), Some(location)))
  }

  /** PUT /api/items/{id}: overwrites name and price of an existing item, else 404. */
  function Update(repo: Store, id: int, body: ItemBody): (r: Step)
    ensures r.reply.status == NOT_FOUND <==> id !in repo.rows
    ensures id !in repo.rows ==> r.repo == repo && r.reply.body == None
    ensures r.repo.rows.Keys == repo.rows.Keys && r.repo.nextId == repo.nextId
    ensures id in repo.rows ==>
      && r.reply.status == OK
      && r.reply.body == Some(Item(id, body.name, body.price))
      && id in r.repo.rows
      && r.repo.rows[id] == Row(body.name, body.price)
    ensures forall k :: k in repo.rows && k != id ==> r.repo.rows[k] == repo.rows[k]
    ensures r.reply.location == None
  {
    if id in repo.rows then
      var existing := Row(body.name, body.price);
      Step(repo.(rows := repo.rows[id := existing]), Reply(OK, Some(Item(id, existing.name, existing.price)), None))
    else
      Step(repo, Reply(NOT_FOUND, None, None))
  }

  /** DELETE /api/items/{id}: removes an existing item and answers 204, else 404. */
  function Delete(repo: Store, id: int): (r: Step)
    ensures r.reply.status == NOT_FOUND <==> id !in repo.rows
    ensures id !in repo.rows ==> r.repo == repo
    ensures id in repo.rows ==> r.reply.status == NO_CONTENT
    ensures r.repo.rows.Keys == repo.rows.Keys - {id} && r.repo.nextId == repo.nextId
    ensures forall k :: k in r.repo.rows ==> r.repo.rows[k] == repo.rows[k]
    ensures r.reply.body == None && r.reply.location == None
  {
    if id !in repo.rows then Step(repo, Reply(NOT_FOUND, None, None))
    else Step(repo.(rows := repo.rows - {id}), Reply(NO_CONTENT, None, None))
  }

  // Properties relating several calls.

  lemma IdsOfTail(items: seq<Item>)
    requires |items| > 0 && Ascending(items)
    ensures IdsOf(items[1..]) == IdsOf(items) - {items[0].id}
  {
    var tail := items[1..];
    forall id | id in IdsOf(items) - {items[0].id} ensures id in IdsOf(tail) {
      var i :| 0 <= i < |items| && items[i].id == id;
      assert tail[i - 1].id == id;
    }
    forall id | id in IdsOf(tail) ensures id in IdsOf(items) - {items[0].id} {
      var i :| 0 <= i < |tail| && tail[i].id == id;
      assert items[i + 1].id == id;
    }
  }

  /** Dropping the head of a listing lists the table without the head's row. */
  lemma ListsTail(items: seq<Item>, rows: map<int, Row>)
    requires Lists(items, rows) && items != []
    ensures Lists(items[1..], rows - {items[0].id})
  {
    var tail := items[1..];
    var smaller := rows - {items[0].id};
    IdsOfTail(items);
    forall i | 0 <= i < |tail| ensures tail[i].id in smaller && tail[i] == Entry(smaller, tail[i].id) {
      assert tail[i] == items[i + 1];
      assert items[0].id < items[i + 1].id;
    }
    forall i, j | 0 <= i < j < |tail| ensures tail[i].id < tail[j].id {
      assert tail[i] == items[i + 1] && tail[j] == items[j + 1];
    }
  }

  lemma IdsOfHas(items: seq<Item>, i: int)
    requires 0 <= i < |items|
    ensures items[i].id in IdsOf(items)
  {
  }

  /** A non-empty listing starts with the table's least id. */
  lemma ListsHead(items: seq<Item>, rows: map<int, Row>)
    requires Lists(items, rows) && rows != map[]
    ensures items != [] && items[0].id == MinId(rows.Keys)
  {
    var first := MinId(rows.Keys);
    assert first in IdsOf(items);
    var i :| 0 <= i < |items| && items[i].id == first;
    IdsOfHas(items, 0);
    assert i == 0;
  }

  /** The ascending listing of a table is unique: whatever lists it is what `All` returns. */
  lemma {:induction false} ListingUnique(repo: Store, items: seq<Item>)
    requires Lists(items, repo.rows)
    ensures items == All(repo)
    decreases repo.rows.Keys
  {
    if repo.rows == map[] {
      if items != [] {
        IdsOfHas(items, 0);
        assert false;
      }
    } else {
      ListsHead(items, repo.rows);
      var first := items[0].id;
      var smaller: Store := repo.(rows := repo.rows - {first});
      ListsTail(items, repo.rows);
      ListingUnique(smaller, items[1..]);
      AllUnfold(repo);
      assert items == [items[0]] + items[1..];
    }
  }

  /** One step of `All`: the least row, then the listing of the rest. */
  lemma AllUnfold(repo: Store)
    requires repo.rows != map[]
    ensures var first := MinId(repo.rows.Keys);
      All(repo) == [Entry(repo.rows, first)] + All(repo.(rows := repo.rows - {first}))
  {
  }

  /** Appending a row whose id exceeds every stored id to a listing lists the extended table. */
  lemma ListsSnoc(items: seq<Item>, rows: map<int, Row>, id: int, row: Row)
    requires Lists(items, rows)
    requires forall k :: k in rows ==> k < id
    ensures Lists(items + [Entry(rows[id := row], id)], rows[id := row])
  {
    var bigger := rows[id := row];
    var added := Entry(bigger, id);
    var r := items + [added];
    forall k | k in IdsOf(r) ensures k in bigger {
      var i :| 0 <= i < |r| && r[i].id == k;
      if i < |items| { assert items[i].id == k; IdsOfHas(items, i); }
    }
    forall k | k in bigger ensures k in IdsOf(r) {
      if k == id {
        IdsOfHas(r, |items|);
      } else {
        assert k in IdsOf(items);
        var i :| 0 <= i < |items| && items[i].id == k;
        assert r[i] == items[i];
        IdsOfHas(r, i);
      }
    }
    forall i | 0 <= i < |r| ensures r[i].id in bigger && r[i] == Entry(bigger, r[i].id) {
      if i < |items| {
        assert r[i] == items[i];
        assert items[i].id in rows;
      }
    }
    forall i, j | 0 <= i < j < |r| ensures r[i].id < r[j].id {
      assert r[i] == items[i];
      assert items[i].id in rows;
      if j < |items| { assert r[j] == items[j]; }
    }
  }

  /** A saved item is listed last: its id exceeds every id already stored. */
  lemma AllAfterAdd(repo: Store, body: ItemBody)
    ensures All(Add(repo, body).repo) == All(repo) + [Item(repo.nextId, body.name, body.price)]
  {
    var after := Add(repo, body).repo;
    var row := Row(body.name, body.price);
    assert after.rows == repo.rows[repo.nextId := row];
    ListsSnoc(All(repo), repo.rows, repo.nextId, row);
    ListingUnique(after, All(repo) + [Entry(after.rows, repo.nextId)]);
  }

  /** Deleting the same id twice: 204, then 404 with the store left as the first call left it. */
  lemma DeleteTwice(repo: Store, id: int)
    requires id in repo.rows
    ensures var first := Delete(repo, id);
      && first.reply.status == NO_CONTENT
      && Delete(first.repo, id).reply.status == NOT_FOUND
      && Delete(first.repo, id).repo == first.repo
  {
  }

  /** Deleting the id that a POST reported in its Location header undoes the POST's change to the table. */
  lemma DeleteUndoesAdd(repo: Store, body: ItemBody)
    ensures var added := Add(repo, body);
      var id := Decimal.Read(added.reply.location.value[|ITEMS_PATH|..]).value;
      var removed := Delete(added.repo, id);
      && removed.reply.status == NO_CONTENT
      && removed.repo.rows == repo.rows
  {
    var added := Add(repo, body);
    var removed := Delete(added.repo, repo.nextId);
    assert removed.repo.rows == repo.rows;
  }

  /** Repeating an update changes nothing more. */
  lemma UpdateIdempotent(repo: Store, id: int, body: ItemBody)
    ensures var once := Update(repo, id, body);
      Update(once.repo, id, body) == once
  {
    var once := Update(repo, id, body);
    if id in repo.rows {
      assert once.repo.rows[id := Row(body.name, body.price)] == once.repo.rows;
    }
  }

  /** Updating back to the old name and price restores the store. */
  lemma UpdateUndone(repo: Store, id: int, body: ItemBody)
    requires id in repo.rows
    ensures var back := ItemBody(repo.rows[id].name, repo.rows[id].price);
      Update(Update(repo, id, body).repo, id, back).repo == repo
  {
    var back := ItemBody(repo.rows[id].name, repo.rows[id].price);
    var restored := Update(Update(repo, id, body).repo, id, back).repo;
    assert restored.rows == repo.rows;
  }

  /** After an update the listing shows the new name and price under the same id. */
  lemma ListedAfterUpdate(repo: Store, id: int, body: ItemBody)
    requires id in repo.rows
    ensures Item(id, body.name, body.price) in All(Update(repo, id, body).repo)
  {
    var after := Update(repo, id, body).repo;
    var listed := All(after);
    assert id in IdsOf(listed);
    var i :| 0 <= i < |listed| && listed[i].id == id;
    assert listed[i] == Item(id, body.name, body.price);
  }

  /** After a delete the listing no longer shows the id, and still shows every other item. */
  lemma ListedAfterDelete(repo: Store, id: int)
    ensures forall it :: it in All(Delete(repo, id).repo) ==> it.id != id
    ensures forall it :: it in All(repo) && it.id != id ==> it in All(Delete(repo, id).repo)
  {
    var before := All(repo);
    var after := All(Delete(repo, id).repo);
    forall it | it in after ensures it.id != id {
      var i :| 0 <= i < |after| && after[i] == it;
      assert after[i].id in Delete(repo, id).repo.rows;
    }
    forall it | it in before && it.id != id ensures it in after {
      var i :| 0 <= i < |before| && before[i] == it;
      assert it.id in Delete(repo, id).repo.rows;
      assert it.id in IdsOf(after);
      var j :| 0 <= j < |after| && after[j].id == it.id;
      assert after[j] == it;
    }
  }
}
