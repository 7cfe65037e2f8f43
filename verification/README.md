# Shopping list: item service and client synchronisation, in Dafny

This project models the two pieces of the shopping-list application that carry behaviour:

- **The item service** (`ItemController`, Spring Boot). It has four REST handlers under `/api/items`: list, add, update and delete. The JPA repository behind them is an abstract table. The table maps each id to a stored name and price, and holds the identity generator's next value. The subset type `Store` says every stored id was handed out by the generator. So a new id is never an id already in use.
- **The client** (`App.tsx`, React). Its six state hooks become one immutable `State` record. `load`, `addItem`, the form setters and the snackbar dismissals become pure transitions. Each remote call is an input outcome, `Ok(data)` or `Fail(text)`. `Load`, `Mount` and `AddItem` also return the requests they sent, so "no request was made" is something a contract can say.

Supporting modules:

- `Wrappers` holds `Option`.
- `Decimal` renders an id as decimal text for the `Location` header, and reads it back.
- `JsText` models JavaScript's `String.prototype.trim`.
- `EndToEnd` feeds the service's answers into the client and relates what the client shows to what the service stores.

Files: `wrappers.dfy`, `decimal.dfy`, `jstext.dfy`, `item_controller.dfy`, `app.dfy`, `end_to_end.dfy`.

`addItem`'s own check rejects only a blank trimmed name or a NaN price; negative and infinite prices pass it (`App.ValidateAcceptsAnyNumber`). The client has no edit or delete flows, and success is a boolean `saved` flag.

## Model

| member | source | states |
|---|---|---|
| ItemController.All | SHOPPING-SPRINGBOOT/src/main/java/com/example/shopping/web/ItemController.java:22-25 | the list names every stored id once, no other id, each with its stored name and price, in ascending id order; the store is an input only, so it is not changed |
| ItemController.ListingUnique | SHOPPING-SPRINGBOOT/src/main/java/com/example/shopping/web/ItemController.java:22-25 | any sequence that lists the table exactly once in ascending id order is the one `All` returns |
| ItemController.Add | SHOPPING-SPRINGBOOT/src/main/java/com/example/shopping/web/ItemController.java:27-31 | the item is stored under an id not previously in the store, and every earlier row is unchanged; the reply is 201 with the saved item as body; the Location is exactly `/api/items/` followed by the shortest decimal text of the new id, and that text reads back as the id |
| ItemController.AllAfterAdd | SHOPPING-SPRINGBOOT/src/main/java/com/example/shopping/web/ItemController.java:22-31 | after an add, the listing is the previous listing with the saved item appended |
| ItemController.Update | SHOPPING-SPRINGBOOT/src/main/java/com/example/shopping/web/ItemController.java:33-43 | the reply is 404 exactly when the id is absent, and then the store is unchanged; otherwise it is 200 with the item under the same id, whose stored name and price are now the request's; the key set, the generator and every other row stay the same |
| ItemController.UpdateIdempotent | SHOPPING-SPRINGBOOT/src/main/java/com/example/shopping/web/ItemController.java:33-43 | repeating an update gives the same store and reply as doing it once |
| ItemController.UpdateUndone | SHOPPING-SPRINGBOOT/src/main/java/com/example/shopping/web/ItemController.java:36-39 | updating an item back to its old name and price restores the store |
| ItemController.ListedAfterUpdate | SHOPPING-SPRINGBOOT/src/main/java/com/example/shopping/web/ItemController.java:33-43 | after an update of an existing id, the listing shows that id with the new name and price |
| ItemController.Delete | SHOPPING-SPRINGBOOT/src/main/java/com/example/shopping/web/ItemController.java:45-50 | the reply is 404 exactly when the id is absent, and then the store is unchanged; otherwise it is 204 and exactly that id is removed, with every other row kept |
| ItemController.DeleteTwice | SHOPPING-SPRINGBOOT/src/main/java/com/example/shopping/web/ItemController.java:45-50 | deleting an existing id twice answers 204 and then 404, and the second call leaves the store as the first left it |
| ItemController.DeleteUndoesAdd | SHOPPING-SPRINGBOOT/src/main/java/com/example/shopping/web/ItemController.java:27-50 | deleting the id read back from an add's Location answers 204 and restores the table as it was before the add |
| ItemController.ListedAfterDelete | SHOPPING-SPRINGBOOT/src/main/java/com/example/shopping/web/ItemController.java:45-50 | after a delete, no listed item has that id, and every other previously listed item is still listed |
| Decimal.Show | SHOPPING-SPRINGBOOT/src/main/java/com/example/shopping/web/ItemController.java:30 | an id renders as non-empty digits with no leading zero |
| Decimal.Read | SHOPPING-SPRINGBOOT/src/main/java/com/example/shopping/web/ItemController.java:30 | the inverse of the Location rendering: text reads as a number exactly when it is a non-empty run of unsigned digits |
| Decimal.ReadShow | SHOPPING-SPRINGBOOT/src/main/java/com/example/shopping/web/ItemController.java:30 | reading back a rendered id gives the id |
| Decimal.ShowInjective | SHOPPING-SPRINGBOOT/src/main/java/com/example/shopping/web/ItemController.java:30 | distinct ids give distinct Location paths |
| JsText.Trim | SHOPPING-REACT/src/App.tsx:63 | the trimmed name has no white space at either end, and is empty exactly when the name is all white space |
| JsText.TrimPadded | SHOPPING-REACT/src/App.tsx:63 | trimming a text that has no white space at its ends, padded on both sides with white space, gives the text back |
| JsText.TrimTight | SHOPPING-REACT/src/App.tsx:63 | a text with no white space at its ends is its own trim |
| JsText.TrimIdempotent | SHOPPING-REACT/src/App.tsx:63 | trimming twice is trimming once |
| App.Initial | SHOPPING-REACT/src/App.tsx:33-38 | the state starts with an empty list, empty form fields, no spinner, no error and no "saved" flag |
| App.Total | SHOPPING-REACT/src/App.tsx:40 | the total of the empty list is 0 |
| App.TotalIsPriceSum | SHOPPING-REACT/src/App.tsx:40 | the left fold the client displays equals the sum of the items' prices, defined independently by structure |
| App.TotalAppend | SHOPPING-REACT/src/App.tsx:40 | the total of two lists joined is the sum of their totals |
| App.BeginLoad | SHOPPING-REACT/src/App.tsx:43-44 | before the answer arrives, the spinner is on and the error is cleared, with the list, form and "saved" flag untouched |
| App.Load | SHOPPING-REACT/src/App.tsx:42-55 | exactly one GET is sent and the spinner ends off. On success the list becomes the answer, in its order, with no error. On failure the old list stays and the error is the message. Form and "saved" flag are untouched |
| App.LoadForgetsList | SHOPPING-REACT/src/App.tsx:46-49 | a successful load does not depend on the list, spinner or error shown before it |
| App.LoadIdempotent | SHOPPING-REACT/src/App.tsx:42-55 | loading the same answer twice gives the same state as once |
| App.Mount | SHOPPING-REACT/src/App.tsx:57 | the mount effect sends one GET from the initial state; the list is the answer on success and empty on failure |
| App.Validate | SHOPPING-REACT/src/App.tsx:63-64 | the body is refused exactly when the name is all white space or the price parses to NaN; otherwise it carries the parsed price and the trimmed name, which is non-empty with no white space at its ends |
| App.ValidateAcceptsAnyNumber | SHOPPING-REACT/src/App.tsx:63-64 | any parsed price other than NaN passes, negative and infinite ones included, and the body carries the trimmed name |
| App.ValidateIgnoresPadding | SHOPPING-REACT/src/App.tsx:63 | white space around the name does not change the request |
| App.ValidateSeesTrimmedName | SHOPPING-REACT/src/App.tsx:63-64 | two names with the same trim validate alike |
| App.AddItem | SHOPPING-REACT/src/App.tsx:59-78 | invalid input sends nothing and shows "Enter name and valid price", leaving list, form, "saved" flag and spinner as they were. A failed POST sends only the POST, shows its message and keeps form and "saved" flag. A successful POST is followed by exactly one GET; the form is cleared, "saved" is set, and the state is a full `load` |
| App.Submit | SHOPPING-REACT/src/App.tsx:65-76 | a failed POST sends only the POST and shows its message, with list, form, "saved" flag and spinner unchanged; a successful one is followed by exactly one GET, and the state is a full `load` from the form cleared and "saved" set |
| App.AddItemNeverPatchesList | SHOPPING-REACT/src/App.tsx:70-74 | after `addItem` the list is either the reload's answer or the old list, never a locally patched one |
| App.SetName | SHOPPING-REACT/src/App.tsx:95 | typing in the name field changes only the name |
| App.SetPrice | SHOPPING-REACT/src/App.tsx:96 | typing in the price field changes only the price text |
| App.DismissError | SHOPPING-REACT/src/App.tsx:145-146 | closing the error snackbar clears the error and nothing else |
| App.DismissSaved | SHOPPING-REACT/src/App.tsx:148-149 | closing the success snackbar clears the "saved" flag and nothing else |
| App.DismissIdempotent | SHOPPING-REACT/src/App.tsx:145-149 | each dismissal is idempotent, and the two dismissals are independent of order |
| EndToEnd.ToClient | SHOPPING-REACT/src/App.tsx:26-30 | a service item arrives at the client with its id present and name and price unchanged |
| EndToEnd.AddThenReload | SHOPPING-REACT/src/App.tsx:59-78 | adding valid input, with the service accepting it (201), sends a POST of the trimmed name and then a GET. The list then shows the items the service stored before the add, followed by the saved item under its new id, and the total grows by exactly its price |
| EndToEnd.ReloadAfterDelete | SHOPPING-REACT/src/App.tsx:46-49 | a reload after the service deleted an id shows no item with that id, and still shows every other stored item |

## Left out

- HTTP transport is not modelled: `fetch`, JSON encoding, headers, `BACKEND_URL`, CORS and Spring's request mapping. Every remote call is an input outcome; a non-2xx body, a network error and a JSON error all become `Fail(text)`.
- Rendering is not modelled: the MUI layout, the table, the spinner, the snackbars' auto-hide timers and `toFixed(2)`. Only the state transitions wired to the snackbars are modelled.
- Overlapping requests to the service are not modelled; each handler runs as one atomic step, although its repository calls are separate transactions (`existsById` then `deleteById`, `findById` then `save`). `ItemController.DeleteTwice` and `ItemController.UpdateIdempotent` therefore describe requests that do not overlap.
- The form's native constraints (`required`, `type="number"`, `min: '0'`, `step: '0.01'`, SHOPPING-REACT/src/App.tsx:95-96) are browser behaviour and are not modelled. Through the rendered form, the browser stops empty fields and negative prices before `addItem` runs.
- Overlapping `load`s and `addItem`s are not modelled. They are asynchronous, and the code gives no ordering between them. Each transition runs to completion.
- Floating point is not modelled: prices and the total are Dafny `real`, so the sum is exact and associative. `parseFloat` is an abstract parameter `string -> Number`, where `NaN` stands for NaN.
- EndToEnd.AddThenReload: the saved item is listed after the earlier ones only under the model's ascending-id order for `findAll` (see the `ItemController.All` line). It also assumes a finite price. `JSON.stringify` turns an infinite price into `null`, and what the service then does depends on the `Item` entity, which is not part of this model.
- ItemController.All: `findAll` promises no order. The model fixes ascending id order, so `ItemController.AllAfterAdd` describes this model's order, not every database's.
- ItemController.Add: the request body's own `id` is ignored. The client never sends one, and JPA's merge behaviour of `save` for an entity with an id depends on the `Item` entity, which is not part of this model.
- ItemController.Add: ids are unbounded integers, so 64-bit `Long` overflow of the identity generator is not modelled.
- The database's initial contents and the identity generator's starting value are not modelled; a store is any table whose ids lie below the next id.
- Decimal.Read: refuses signed text such as `-1` or `+1`, which a `Long` path variable accepts; no handler reads its id through it, since `Update` and `Delete` take the id as an integer.
- `@Valid` bean validation is not modelled; the `Item` entity is not part of this model. Nor is Spring's 400 for a non-numeric path id.
- SHOPPING-SPRINGBOOT/src/main/java/com/example/shopping/repo/ItemRepository.java is an empty JPA interface. It appears only as the abstract table.
- `HomeController` (a constant greeting) and `vite.config.ts` (build configuration) are not modelled.
- Edit and delete flows, edit/delete sessions and success messages are not modelled, because the client code has none.
- `evt.preventDefault()` is browser behaviour and is not modelled.
