/**
 The React client's state and its transitions. The component's six state hooks
 become one immutable record; every remote call is an input outcome, and each
 transition reports the requests it issued, so the model does no I/O.
 */
module App {
  import opened Wrappers
  import JsText

  /** An item as the client holds it; `id` is absent until the server assigns one. */
  datatype Item = Item(id: Option<int>, name: string, price: real)

  /** A JavaScript number as parseFloat can produce it. */
  datatype Number = NaN | Infinity(negative: bool) | Finite(value: real)

  /**
   The component's state hooks: the list, the two form fields as typed, the
   spinner flag, the error message (null as None) and the "Item added" flag.
   */
  datatype State = State(
    items: seq<Item>,
    name: string,
    price: string,
    loading: bool,
    error: Option<string>,
    saved: bool)

  /** How a remote call ended: a 2xx reply with its data, or a message (a non-2xx body or a thrown error's text). */
  datatype Remote<+T> = Ok(data: T) | Fail(text: string)

  /** The requests the client sends to the service. */
  datatype Request = GetItems | PostItem(name: string, price: Number)

  /** The state a transition settles in and the requests it sent, in order. */
  datatype Run = Run(state: State, calls: seq<Request>)

  const INVALID_INPUT: string := "Enter name and valid price"

  /** The hooks' initial values. */
  function Initial(): (s: State)
    ensures s.items == [] && s.name == [] && s.price == []
    ensures !s.loading && s.error == None && !s.saved
  {
    State([], "", "", false, None, false)
  }

  // The displayed total.

  /** The displayed total: the client's left fold of the prices, starting from 0. */
  function Total(items: seq<Item>): (t: real)
    ensures items == [] ==> t == 0.0
  {
    FoldPrices(0.0, items)
  }

  function FoldPrices(acc: real, items: seq<Item>): real
    decreases |items|
  {
    if items == [] then acc else FoldPrices(acc + items[0].price, items[1..])
  }

  /** The sum of the prices, defined by the list's structure. */
  function PriceSum(items: seq<Item>): real
    decreases |items|
  {
    if items == [] then 0.0 else items[0].price + PriceSum(items[1..])
  }

  lemma {:induction false} FoldPricesAdds(acc: real, items: seq<Item>)
    ensures FoldPrices(acc, items) == acc + PriceSum(items)
    decreases |items|
  {
    if items != [] {
      FoldPricesAdds(acc + items[0].price, items[1..]);
    }
  }

  /** The displayed total is the sum of the prices; the empty list totals 0. */
  lemma TotalIsPriceSum(items: seq<Item>)
    ensures Total(items) == PriceSum(items)
  {
    FoldPricesAdds(0.0, items);
  }

  lemma {:induction false} PriceSumAppend(a: seq<Item>, b: seq<Item>)
    ensures PriceSum(a + b) == PriceSum(a) + PriceSum(b)
    decreases |a|
  {
    if a != [] {
      assert (a + b)[1..] == a[1..] + b;
      PriceSumAppend(a[1..], b);
    } else {
      assert a + b == b;
    }
  }

  /** The total of a concatenation is the sum of the totals. */
  lemma TotalAppend(a: seq<Item>, b: seq<Item>)
    ensures Total(a + b) == Total(a) + Total(b)
  {
    TotalIsPriceSum(a + b);
    TotalIsPriceSum(a);
    TotalIsPriceSum(b);
    PriceSumAppend(a, b);
  }

  // Loading the list.

  /** What `load` does before its request is answered: spinner on, error cleared. */
  function BeginLoad(s: State): (r: State)
    ensures r.loading && r.error == None
    ensures r.items == s.items && r.name == s.name && r.price == s.price && r.saved == s.saved
  {
    s.(loading := true, error := None)
  }

  /**
   `load`: one GET, answered by `get`. Success replaces the list wholesale;
   failure keeps the old list and shows the message; the spinner always stops.
   */
  function Load(s: State, get: Remote<seq<Item>>): (r: Run)
    ensures r.calls == [GetItems]
    ensures !r.state.loading
    ensures get.Ok? ==> r.state.items == get.data && r.state.error == None
    ensures get.Fail? ==> r.state.items == s.items && r.state.error == Some(get.text)
    ensures r.state.name == s.name && r.state.price == s.price && r.state.saved == s.saved
  {
    var busy := BeginLoad(s);
    var settled := match get
      case Ok(data) => busy.(items := data)
      case Fail(text) => busy.(error := Some(text));
    Run(settled.(loading := false), [GetItems])
  }

  /** The mount effect: one `load` from the initial state. */
  function Mount(get: Remote<seq<Item>>): (r: Run)
    ensures r.calls == [GetItems] && !r.state.loading
    ensures r.state.items == (if get.Ok? then get.data else [])
    ensures r.state.error == (if get.Ok? then None else Some(get.text))
    ensures r.state.name == [] && r.state.price == [] && !r.state.saved
  {
    Load(Initial(), get)
  }

  /** A successful load does not depend on what the list, spinner or error showed before. */
  lemma LoadForgetsList(s: State, t: State, data: seq<Item>)
    requires s.name == t.name && s.price == t.price && s.saved == t.saved
    ensures Load(s, Ok(data)).state == Load(t, Ok(data)).state
  {
  }

  /** Loading the same answer again changes nothing. */
  lemma LoadIdempotent(s: State, get: Remote<seq<Item>>)
    ensures var once := Load(s, get).state;
      Load(once, get).state == once
  {
  }

  // Adding an item.

  /**
   The check `addItem` makes before any request: the body carries the trimmed
   name and the parsed price, and is refused only for a blank name or NaN.
   */
  function Validate(name: string, price: string, parse: string -> Number): (r: Option<Request>)
    ensures r.None? <==> JsText.AllSpace(name) || parse(price).NaN?
    ensures r.Some? ==> r.value.PostItem? && r.value.price == parse(price)
    ensures r.Some? ==> r.value.name == JsText.Trim(name)
    ensures r.Some? ==> JsText.Tight(r.value.name) && r.value.name != []
  {
    var body := PostItem(JsText.Trim(name), parse(price));
    if body.name == [] || body.price.NaN? then None else Some(body)
  }

  /**
   `addItem`: clears the error, validates, POSTs (answered by `post`) and on
   success clears the form, raises "saved" and reloads (answered by `get`).
   */
  function AddItem(s: State, parse: string -> Number, post: Remote<()>, get: Remote<seq<Item>>): (r: Run)
    ensures var v := Validate(s.name, s.price, parse);
      && (v.None? ==> r.calls == [] && r.state == s.(error := Some(INVALID_INPUT)))
      && (v.Some? && post.Fail? ==> r.calls == [v.value] && r.state == s.(error := Some(post.text)))
      && (v.Some? && post.Ok? ==>
            && r.calls == [v.value, GetItems]
            && r.state.name == [] && r.state.price == [] && r.state.saved
            && r.state == Load(s.(name := "", price := "", saved := true), get).state)
  {
    match Validate(s.name, s.price, parse)
    case None => Run(s.(error := Some(INVALID_INPUT)), [])
    case Some(body) => Submit(s, body, post, get)
  }

  /** The part of `addItem` after validation passed: the POST and, if it succeeded, the reload. */
  function Submit(s: State, body: Request, post: Remote<()>, get: Remote<seq<Item>>): (r: Run)
    ensures post.Fail? ==> r.calls == [body] && r.state == s.(error := Some(post.text))
    ensures post.Ok? ==>
      && r.calls == [body, GetItems]
      && r.state.name == [] && r.state.price == [] && r.state.saved
      && r.state == Load(s.(name := "", price := "", saved := true), get).state
  {
    match post
    case Fail(text) => Run(s.(error := Some(text)), [body])
    case Ok(_) =>
      var loaded := Load(s.(error := None, name := "", price := "", saved := true), get);
      Run(loaded.state, [body] + loaded.calls)
  }

  /** The list after `addItem` is the server's answer or the old list; never a locally patched one. */
  lemma AddItemNeverPatchesList(s: State, parse: string -> Number, post: Remote<()>, get: Remote<seq<Item>>)
    ensures var r := AddItem(s, parse, post, get);
      r.state.items == (if GetItems in r.calls && get.Ok? then get.data else s.items)
  {
  }

  /** Validation refuses neither negative nor infinite prices, only NaN. */
  lemma ValidateAcceptsAnyNumber(name: string, price: string, parse: string -> Number)
    requires !JsText.AllSpace(name) && !parse(price).NaN?
    ensures Validate(name, price, parse) == Some(PostItem(JsText.Trim(name), parse(price)))
  {
  }

  /** Space around the name is not sent: padding a name does not change the request. */
  lemma ValidateIgnoresPadding(a: string, name: string, b: string, price: string, parse: string -> Number)
    requires JsText.AllSpace(a) && JsText.AllSpace(b) && JsText.Tight(name)
    ensures Validate(a + name + b, price, parse) == Validate(name, price, parse)
  {
    JsText.TrimPadded(a, name, b);
    JsText.TrimTight(name);
    ValidateSeesTrimmedName(a + name + b, name, price, parse);
  }

  lemma ValidateSeesTrimmedName(x: string, y: string, price: string, parse: string -> Number)
    requires JsText.Trim(x) == JsText.Trim(y)
    ensures Validate(x, price, parse) == Validate(y, price, parse)
  {
  }

  // Form fields and dismissal.

  /** The name field's change handler. */
  function SetName(s: State, text: string): (r: State)
    ensures r.name == text
    ensures r.items == s.items && r.price == s.price && r.loading == s.loading
    ensures r.error == s.error && r.saved == s.saved
  {
    s.(name := text)
  }

  /** The price field's change handler. */
  function SetPrice(s: State, text: string): (r: State)
    ensures r.price == text
    ensures r.items == s.items && r.name == s.name && r.loading == s.loading
    ensures r.error == s.error && r.saved == s.saved
  {
    s.(price := text)
  }

  /** Closing the error snackbar. */
  function DismissError(s: State): (r: State)
    ensures r.error == None
    ensures r.items == s.items && r.name == s.name && r.price == s.price
    ensures r.loading == s.loading && r.saved == s.saved
  {
    s.(error := None)
  }

  /** Closing the "Item added" snackbar. */
  function DismissSaved(s: State): (r: State)
    ensures !r.saved
    ensures r.items == s.items && r.name == s.name && r.price == s.price
    ensures r.loading == s.loading && r.error == s.error
  {
    s.(saved := false)
  }

  /** Dismissing twice is dismissing once, and the two messages are dismissed independently. */
  lemma DismissIdempotent(s: State)
    ensures DismissError(DismissError(s)) == DismissError(s)
    ensures DismissSaved(DismissSaved(s)) == DismissSaved(s)
    ensures DismissError(DismissSaved(s)) == DismissSaved(DismissError(s))
  {
  }
}
