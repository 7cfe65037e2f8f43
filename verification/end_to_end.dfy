/**
 The client talking to the service: the client's remote outcomes are produced
 by the service's handlers over a store, so the client's view can be related
 to what the service holds.
 */
module EndToEnd {
  import opened Wrappers
  import JsText
  import Server = ItemController
  import Client = App

  /** An item from the service's JSON as the client holds it. */
  function ToClient(it: Server.Item): (c: Client.Item)
    ensures c.id == Some(it.id) && c.name == it.name && c.price == it.price
  {
    Client.Item(Some(it.id), it.name, it.price)
  }

  function ToClientList(items: seq<Server.Item>): (r: seq<Client.Item>)
    ensures |r| == |items|
    ensures forall i :: 0 <= i < |items| ==> r[i] == ToClient(items[i])
  {
    seq(|items|, i requires 0 <= i < |items| => ToClient(items[i]))
  }

  /** The client's GET, answered by the service from `repo`. */
  function ServeList(repo: Server.Store): Client.Remote<seq<Client.Item>> {
    Client.Ok(ToClientList(Server.All(repo)))
  }

  /**
   Adding through the form, with the service accepting the POST and answering
   the reload: the list shows the saved item, under its new id, after the items
   already stored, and the total grows by exactly its price.
   */
  lemma AddThenReload(repo: Server.Store, s: Client.State, parse: string -> Client.Number, price: real)
    requires !JsText.AllSpace(s.name) && parse(s.price) == Client.Finite(price)
    ensures var body := Server.ItemBody(JsText.Trim(s.name), price);
      var stored := Server.Add(repo, body);
      var run := Client.AddItem(s, parse, Client.Ok(()), ServeList(stored.repo));
      var shown := ToClientList(Server.All(repo));
      && stored.reply.status == Server.CREATED
      && run.calls == [Client.PostItem(body.name, Client.Finite(price)), Client.GetItems]
      && run.state.items == shown + [Client.Item(Some(repo.nextId), body.name, price)]
      && Client.Total(run.state.items) == Client.Total(shown) + price
      && run.state.error == None && run.state.saved && !run.state.loading
  {
    var body := Server.ItemBody(JsText.Trim(s.name), price);
    var stored := Server.Add(repo, body);
    var added := Client.Item(Some(repo.nextId), body.name, price);
    var shown := ToClientList(Server.All(repo));
    ReloadAfterAdd(repo, body);
    TotalSnoc(shown, added);
    var get := ServeList(stored.repo);
    assert get == Client.Ok(shown + [added]);
    assert Client.Validate(s.name, s.price, parse) == Some(Client.PostItem(body.name, Client.Finite(price)));
    var run := Client.AddItem(s, parse, Client.Ok(()), get);
    assert run.state == Client.Load(s.(name := "", price := "", saved := true), get).state;
  }

  /** What the client receives after an add: the earlier items, then the saved one. */
  lemma ReloadAfterAdd(repo: Server.Store, body: Server.ItemBody)
    ensures ToClientList(Server.All(Server.Add(repo, body).repo))
      == ToClientList(Server.All(repo)) + [Client.Item(Some(repo.nextId), body.name, body.price)]
  {
    Server.AllAfterAdd(repo, body);
    ToClientListSnoc(Server.All(repo), Server.Item(repo.nextId, body.name, body.price));
  }

  lemma ToClientListSnoc(items: seq<Server.Item>, it: Server.Item)
    ensures ToClientList(items + [it]) == ToClientList(items) + [ToClient(it)]
  {
    var l := ToClientList(items + [it]);
    var r := ToClientList(items) + [ToClient(it)];
    assert |l| == |r|;
    forall i | 0 <= i < |l| ensures l[i] == r[i] {
      if i < |items| { assert (items + [it])[i] == items[i]; }
    }
  }

  lemma TotalSnoc(items: seq<Client.Item>, it: Client.Item)
    ensures Client.Total(items + [it]) == Client.Total(items) + it.price
  {
    Client.TotalAppend(items, [it]);
    Client.TotalIsPriceSum([it]);
  }

  /** A reload after the service deleted an id no longer shows it, and still shows every other stored item. */
  lemma ReloadAfterDelete(repo: Server.Store, s: Client.State, id: int)
    ensures var items := Client.Load(s, ServeList(Server.Delete(repo, id).repo)).state.items;
      && (forall i :: 0 <= i < |items| ==> items[i].id != Some(id))
      && (forall it :: it in Server.All(repo) && it.id != id ==> ToClient(it) in items)
  {
    var after := Server.All(Server.Delete(repo, id).repo);
    var items := ToClientList(after);
    Server.ListedAfterDelete(repo, id);
    forall i | 0 <= i < |items| ensures items[i].id != Some(id) {
      assert after[i] in after;
    }
    forall it | it in Server.All(repo) && it.id != id ensures ToClient(it) in items {
      var j :| 0 <= j < |after| && after[j] == it;
      assert items[j] == ToClient(it);
    }
  }
}
