# Push-notification controller, modelled in Dafny

This project models the notification controller of a small HTTP gateway. The gateway forwards
push notifications to the Expo push service. The controller has two operations:

- `sendNotifications(pushTokens, payload)` (the dispatcher). It keeps only the tokens that the
  Expo SDK accepts. It builds one message per kept token, copying the payload's `title`, `body`
  and `data`. It asks the SDK to split the messages into chunks and then walks the chunks. The
  loop body returns on its first pass. So only the first chunk is sent, and the result is that
  chunk's tickets. If that send throws, the result is the string
  `'unable to connect to expo server'`. If there is no chunk, the function returns `undefined`.
- `checkReceipts(receiptIds)` (the receipt reconciler). It asks the SDK to split the ids into
  chunks and fetches the receipts of each chunk. Every returned receipt adds entries to the
  result, in order:
  - an `ok` receipt adds `{id, status: 'ok'}`;
  - an `error` receipt adds `{id, status: 'error', detail: message}`, preceded by
    `{id, status: 'error', detail: details.error}` when that code is present;
  - any other status adds nothing.

  A `null` receipt value makes the destructuring throw. A chunk whose fetch throws adds
  nothing. A chunk whose walk throws keeps the entries it had already added. Either way the
  `catch` around the chunk logs the error and the loop goes on with the next chunk.

Both quirks are modelled as written and not corrected: the dispatcher's return after the first
chunk, and the reconciler's two entries for one error receipt. On a connection failure the code
resolves to a plain string, not a distinct error value; the model follows the code
(`SendResult.ErrorText`).

Files:

- `seqs.dfy`, module `Seqs`: `FlatMap` and `Flatten`, the `Partitions` predicate, which states
  what is assumed of the SDK's chunking, and `Filter`, an independent reference for token
  filtering.
- `notification_controller.dfy`, module `NotificationController`: the data model, the two
  operations as methods with loops, and the specification functions and lemmas about them.

The Expo SDK is reached only through parameters. `isValid` stands for `Expo.isExpoPushToken`.
`chunker` and `chunkIds` stand for `chunkPushNotifications` and
`chunkPushNotificationReceiptIds`. The remote calls `sendPushNotificationsAsync` and
`getPushNotificationReceiptsAsync` are given by their answers: `answers[i]` is what the call
for the `i`-th chunk did, `Threw` or `Returned(value)`. So every call is answered on its own,
and two equal chunks may get different answers. A fetched receipts object is a `ReceiptMap`:
its `(id, value)` pairs in the object's own key enumeration order, with a `null` value written
`None`. The chunking assumption (chunks are non-empty and concatenate back to the input, in
order) is a hypothesis of the lemmas that need it, written `Partitions(chunks, xs)`. The
methods themselves do not need it.

## Model

| member | source | states |
|---|---|---|
| NotificationController.SendNotifications | functions/controller/notificationController.js:6-47 | With `chunks` the SDK's chunking of the built messages and one answer per chunk: no chunk gives `Undefined` and sends nothing; otherwise exactly the first chunk is sent, a returned first answer gives exactly its tickets, and a thrown one gives exactly the text `unable to connect to expo server` |
| NotificationController.ValidMessages | functions/controller/notificationController.js:9-25 | Every built message is addressed to a token of the input that passes the validity check, and carries the payload's title, body and data unchanged; there are never more messages than tokens |
| NotificationController.MessagesFollowValidTokens | functions/controller/notificationController.js:9-25 | The messages correspond one to one, in order, to the tokens kept by `Filter(isValid, tokens)`: message k is built from the k-th valid token, so invalid tokens are skipped and relative order is kept |
| NotificationController.InvalidTokensDropped | functions/controller/notificationController.js:13-16 | The number of tokens minus the number of messages equals the number of invalid tokens |
| NotificationController.NoChunksIffNoValidToken | functions/controller/notificationController.js:27-47 | Under the chunking assumption, there is no chunk (so the result is `undefined`) exactly when no input token is valid |
| NotificationController.OnlyFirstChunkSent | functions/controller/notificationController.js:33-46 | Under the chunking assumption, the sent chunk is a prefix of the messages; the unsent rest is exactly the later chunks; all messages are sent exactly when there is a single chunk |
| NotificationController.ReceiptEntries | functions/controller/notificationController.js:59-78 | One receipt gives at most two entries, all with its id and status `ok` or `error`; none exactly when the status is neither; one `{id, ok}` entry for `ok`; for `error` the last entry carries the message, and there are two entries (the code entry first) exactly when `details.error` is truthy |
| NotificationController.UntilNull | functions/controller/notificationController.js:53-59 | The walk over one receipts object reaches exactly the receipts before the first `null` value, in order, unchanged; when it stops early, the value where it stopped is `null` |
| NotificationController.CheckReceipts | functions/controller/notificationController.js:49-85 | The result is `CheckedEntries(answers)`: the entries of every receipt reached after a successful fetch, chunk after chunk, in order |
| NotificationController.AppendEntries | functions/controller/notificationController.js:58-79 | The walk over one chunk's receipts appends exactly the entries of each receipt it reaches, in order, to what was already gathered, and stops at a `null` receipt keeping what it had added |
| NotificationController.EntriesBound | functions/controller/notificationController.js:58-79 | A list of receipts yields at most twice as many entries, so the result has at most two entries per reached receipt |
| NotificationController.FailedChunkSkipped | functions/controller/notificationController.js:52-83 | A chunk whose fetch throws adds nothing and stops nothing: the result equals the result with that chunk's answer removed |
| NotificationController.NullReceiptEndsChunk | functions/controller/notificationController.js:52-83 | A `null` receipt at position k ends only its own chunk: the result equals the one where that chunk's receipts stop before k, and the other chunks are unaffected |
| NotificationController.AllOkEntries | functions/controller/notificationController.js:58-61 | A receipts object whose values are all `ok` gives exactly one `{id, ok}` entry per receipt, in order |
| NotificationController.AllOkCheck | functions/controller/notificationController.js:49-85 | If every chunk's fetch returns one `ok` receipt per id of the chunk, in order, the result is one `{id, ok}` entry per requested id, in order |

## Left out

- `functions/app/index.js`: Express routing, middleware, the landing page, request checks and status codes. None of it is part of this model.
- The Expo SDK internals: the token grammar of `isExpoPushToken`, chunk sizes and the chunking algorithm, and the network calls. They are parameters of the model. The chunking is assumed to split its input into non-empty pieces in order; that is a hypothesis of the lemmas that use it, not something proved.
- Tickets are opaque (a type parameter). Their one-to-one correspondence with the messages of a chunk is the service's promise and is not modelled.
- `async`/`await`: each remote call is one sequential step whose outcome is an input. No timeout exists in the source and none is modelled.
- `console.error` logging of invalid tokens, receipt errors and caught exceptions: it does not affect results.
- The module-level client `new Expo()`: it is never changed by the controller.
- Receipt fields are modelled with their expected types: `status` a string, `message` an optional string, `details.error` an optional string whose truthiness is "present and non-empty". JavaScript values of other types (a non-string status, a non-string error code) are not modelled.
- A fetch result that is not an object (for example `null`, over which `for...in` does nothing) is not modelled; a fetch either throws or returns a list of pairs. A `null` value inside the object is modelled.
