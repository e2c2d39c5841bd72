/**
 * The push-notification controller: the dispatcher `SendNotifications`, which
 * turns push tokens and one payload into messages and sends them to the Expo
 * push service chunk by chunk, and the receipt reconciler `CheckReceipts`,
 * which fetches delivery receipts chunk by chunk and classifies them.
 *
 * The Expo SDK is reached only through parameters: `isValid` stands for
 * `Expo.isExpoPushToken`, and `chunker` and `chunkIds` for the SDK's chunking
 * functions. The two remote calls are given by their answers: `answers[i]`
 * is what the call for the `i`-th chunk did, either throw or return a value,
 * so each call is answered on its own.
 */
module NotificationController {
  import opened Seqs

  datatype Option<T> = None | Some(value: T)

  /** What one awaited call into the push service did. */
  datatype Call<R> = Threw | Returned(value: R)

  /** The notification shared by every token of one request. */
  datatype Payload<D> = Payload(title: string, body: string, data: D)

  /** One Expo push message: a single recipient token and a copy of the payload. */
  datatype Message<D> = Message(to: string, title: string, body: string, data: D)

  /**
   * What `sendNotifications` resolves to: the tickets of the first chunk,
   * the connection error string, or `undefined` when there was no chunk.
   */
  datatype SendResult<T> = Tickets(tickets: seq<T>) | ErrorText(text: string) | Undefined

  const UnableToConnect: string := "unable to connect to expo server"

  // ---------------------------------------------------------------------------
  // Dispatcher
  // ---------------------------------------------------------------------------

  function MessageFor<D>(token: string, payload: Payload<D>): Message<D>
  {
    Message(token, payload.title, payload.body, payload.data)
  }

  /** The messages built for `tokens`: one per token that passes `isValid`. */
  function ValidMessages<D>(tokens: seq<string>, payload: Payload<D>, isValid: string -> bool): (ms: seq<Message<D>>)
    ensures |ms| <= |tokens|
    ensures forall m | m in ms ::
      m.to in tokens && isValid(m.to) &&
      m.title == payload.title && m.body == payload.body && m.data == payload.data
  {
    if tokens == [] then []
    else
      var last := tokens[|tokens| - 1];
      ValidMessages(tokens[..|tokens| - 1], payload, isValid)
        + (if isValid(last) then [MessageFor(last, payload)] else [])
  }

  /**
   * `sendNotifications`: build the messages, chunk them, and send the chunks
   * one at a time; `answers[i]` is what sending chunk `i` would do. The loop
   * body returns on its first pass, so at most the first chunk is ever sent;
   * `sent` lists the chunks handed to the push service.
   */
  method SendNotifications<D, T>(
    pushTokens: seq<string>,
    payload: Payload<D>,
    isValid: string -> bool,
    chunker: seq<Message<D>> -> seq<seq<Message<D>>>,
    answers: seq<Call<seq<T>>>)
    returns (result: SendResult<T>, sent: seq<seq<Message<D>>>)
    requires |answers| == |chunker(ValidMessages(pushTokens, payload, isValid))|
    ensures var chunks := chunker(ValidMessages(pushTokens, payload, isValid));
      chunks == [] ==> result == Undefined && sent == []
    ensures var chunks := chunker(ValidMessages(pushTokens, payload, isValid));
      chunks != [] ==> sent == [chunks[0]]
    ensures var chunks := chunker(ValidMessages(pushTokens, payload, isValid));
      chunks != [] && answers[0].Returned? ==> result == Tickets(answers[0].value)
    ensures var chunks := chunker(ValidMessages(pushTokens, payload, isValid));
      chunks != [] && answers[0].Threw? ==> result == ErrorText(UnableToConnect)
  {
    var messages: seq<Message<D>> := [];
    var k := 0;
    while k < |pushTokens|
      invariant 0 <= k <= |pushTokens|
      invariant messages == ValidMessages(pushTokens[..k], payload, isValid)
    {
      var pushToken := pushTokens[k];
      assert pushTokens[..k + 1][..k] == pushTokens[..k];
      k := k + 1;
      if !isValid(pushToken) {
        continue;
      }
      messages := messages + [Message(pushToken, payload.title, payload.body, payload.data)];
    }
    assert pushTokens[..k] == pushTokens;

    var chunks := chunker(messages);
    var tickets: seq<T> := [];
    sent := [];
    for i := 0 to |chunks|
      invariant i == 0 && tickets == [] && sent == []
    {
      var chunk := chunks[i];
      sent := sent + [chunk];
      match answers[i] {
        case Returned(ticketChunk) =>
          tickets := tickets + ticketChunk;
          return Tickets(tickets), sent;
        case Threw =>
          return ErrorText(UnableToConnect), sent;
      }
    }
    return Undefined, sent;
  }

  /** Message `k` is built from the `k`-th valid token: invalid tokens are skipped and order is kept. */
  lemma {:induction false} MessagesFollowValidTokens<D>(tokens: seq<string>, payload: Payload<D>, isValid: string -> bool)
    ensures var ms, valid := ValidMessages(tokens, payload, isValid), Filter(isValid, tokens);
      |ms| == |valid| && forall k :: 0 <= k < |ms| ==> ms[k] == MessageFor(valid[k], payload)
    decreases |tokens|
  {
    if tokens != [] {
      var front, last := tokens[..|tokens| - 1], tokens[|tokens| - 1];
      assert tokens == front + [last];
      MessagesFollowValidTokens(front, payload, isValid);
      FilterSnoc(isValid, front, last);
    }
  }

  /** Exactly the invalid tokens are dropped: their number is the number of tokens minus the number of messages. */
  lemma InvalidTokensDropped<D>(tokens: seq<string>, payload: Payload<D>, isValid: string -> bool)
    ensures |tokens| - |ValidMessages(tokens, payload, isValid)| == |Filter(t => !isValid(t), tokens)|
  {
    MessagesFollowValidTokens(tokens, payload, isValid);
    FilterSplits(isValid, t => !isValid(t), tokens);
  }

  /**
   * When the SDK splits the messages into non-empty chunks, there is no chunk
   * (and `sendNotifications` resolves to `undefined`) exactly when no token is valid.
   */
  lemma NoChunksIffNoValidToken<D>(
    tokens: seq<string>, payload: Payload<D>, isValid: string -> bool, chunks: seq<seq<Message<D>>>)
    requires Partitions(chunks, ValidMessages(tokens, payload, isValid))
    ensures chunks == [] <==> forall t | t in tokens :: !isValid(t)
  {
    var ms := ValidMessages(tokens, payload, isValid);
    if chunks == [] {
      assert ms == [];
      MessagesFollowValidTokens(tokens, payload, isValid);
    } else {
      FlattenFirst(chunks);
      assert chunks[0] != [];
      assert ms[0] in ms;
    }
  }

  /**
   * Sending only the first chunk covers a prefix of the messages; the messages
   * of every later chunk are never sent, so they get no ticket, and all
   * messages are covered exactly when there is a single chunk.
   */
  lemma OnlyFirstChunkSent<D>(ms: seq<Message<D>>, chunks: seq<seq<Message<D>>>)
    requires Partitions(chunks, ms)
    requires chunks != []
    ensures |chunks[0]| <= |ms| && chunks[0] == ms[..|chunks[0]|]
    ensures ms[|chunks[0]|..] == Flatten(chunks[1..])
    ensures |chunks[0]| == |ms| <==> |chunks| == 1
  {
    FlattenFirst(chunks);
    if |chunks| > 1 {
      FlattenFirst(chunks[1..]);
      assert chunks[1..][0] == chunks[1];
    } else {
      assert chunks[1..] == [];
    }
  }

  // ---------------------------------------------------------------------------
  // Receipt reconciler
  // ---------------------------------------------------------------------------

  datatype Details = Details(error: Option<string>)

  /** One receipt as the push service reports it; `status` is any string it sends. */
  datatype Receipt = Receipt(status: string, message: Option<string>, details: Option<Details>)

  /** One entry of `checkReceipts`' result; an `ok` entry has no `detail`. */
  datatype Outcome = Outcome(id: string, status: string, detail: Option<string>)

  /** JavaScript truthiness of `details && details.error`: present and not the empty string. */
  predicate HasErrorCode(r: Receipt)
  {
    r.details.Some? && r.details.value.error.Some? && r.details.value.error.value != ""
  }

  /** The entries that one receipt adds to the result. */
  function ReceiptEntries(id: string, r: Receipt): (es: seq<Outcome>)
    ensures |es| <= 2
    ensures forall e | e in es :: e.id == id && (e.status == "ok" || e.status == "error")
    ensures es == [] <==> r.status != "ok" && r.status != "error"
    ensures r.status == "ok" ==> es == [Outcome(id, "ok", None)]
    ensures r.status == "error" ==>
      es[|es| - 1] == Outcome(id, "error", r.message) && (|es| == 2 <==> HasErrorCode(r))
    ensures r.status == "error" && HasErrorCode(r) ==>
      es[0] == Outcome(id, "error", r.details.value.error)
  {
    if r.status == "ok" then [Outcome(id, "ok", None)]
    else if r.status == "error" then
      (if HasErrorCode(r) then [Outcome(id, "error", Some(r.details.value.error.value))] else [])
        + [Outcome(id, "error", r.message)]
    else []
  }

  function PairEntries(entry: (string, Receipt)): seq<Outcome>
  {
    ReceiptEntries(entry.0, entry.1)
  }

  /** The entries for a list of (id, receipt) pairs, in iteration order. */
  function Entries(receipts: seq<(string, Receipt)>): seq<Outcome>
  {
    FlatMap(PairEntries, receipts)
  }

  /**
   * One fetched receipts object, as its (id, value) pairs in the object's own
   * key enumeration order; a `null` value is `None`.
   */
  type ReceiptMap = seq<(string, Option<Receipt>)>

  /**
   * The receipts the walk over one receipts object reaches: destructuring a
   * `null` value throws, and the `catch` around the chunk ends its walk there.
   */
  function UntilNull(receipts: ReceiptMap): (reached: seq<(string, Receipt)>)
    ensures |reached| <= |receipts|
    ensures forall k :: 0 <= k < |reached| ==> receipts[k] == (reached[k].0, Some(reached[k].1))
    ensures |reached| < |receipts| ==> receipts[|reached|].1.None?
  {
    if receipts == [] || receipts[0].1.None? then []
    else [(receipts[0].0, receipts[0].1.value)] + UntilNull(receipts[1..])
  }

  /** The receipts one fetch led to: none when it threw. */
  function Received(call: Call<ReceiptMap>): seq<(string, Receipt)>
  {
    match call
    case Threw => []
    case Returned(receipts) => UntilNull(receipts)
  }

  /** Every receipt reached after a successful fetch, chunk after chunk. */
  function ReturnedReceipts(answers: seq<Call<ReceiptMap>>): seq<(string, Receipt)>
  {
    FlatMap(Received, answers)
  }

  /** What `checkReceipts` resolves to: the entries of every receipt reached after a successful fetch, in order. */
  function CheckedEntries(answers: seq<Call<ReceiptMap>>): seq<Outcome>
  {
    Entries(ReturnedReceipts(answers))
  }

  /**
   * `checkReceipts`: fetch the receipts of each chunk of ids (`answers[i]` is
   * what the fetch for chunk `i` did) and append the entries of every
   * receipt; a chunk whose fetch or walk throws adds what it reached and the
   * loop goes on.
   */
  method CheckReceipts(
    receiptIds: seq<string>,
    chunkIds: seq<string> -> seq<seq<string>>,
    answers: seq<Call<ReceiptMap>>)
    returns (result: seq<Outcome>)
    requires |answers| == |chunkIds(receiptIds)|
    ensures result == CheckedEntries(answers)
  {
    var chunks := chunkIds(receiptIds);
    result := [];
    var i := 0;
    while i < |chunks|
      invariant 0 <= i <= |chunks|
      invariant result == CheckedEntries(answers[..i])
    {
      assert answers[..i + 1] == answers[..i] + [answers[i]];
      CheckedSnoc(answers[..i], answers[i]);
      match answers[i] {
        case Threw =>
        case Returned(receipts) =>
          result := AppendEntries(result, receipts);
      }
      i := i + 1;
    }
    assert answers[..i] == answers;
  }

  /**
   * The `for...in` over one chunk's receipts: append each receipt's entries to
   * `result`, in order, until a `null` receipt throws.
   */
  method AppendEntries(result: seq<Outcome>, receipts: ReceiptMap) returns (extended: seq<Outcome>)
    ensures extended == result + Entries(UntilNull(receipts))
  {
    extended := result;
    ghost var reached := UntilNull(receipts);
    var j := 0;
    while j < |receipts|
      invariant 0 <= j <= |reached|
      invariant extended == result + Entries(reached[..j])
    {
      var (receiptId, value) := receipts[j];
      match value {
        case None =>
          assert reached[..j] == reached;
          return;
        case Some(r) =>
          assert reached[j] == (receiptId, r);
          EntriesSnoc(reached, j);
          ghost var before := extended;
          if r.status == "ok" {
            extended := extended + [Outcome(receiptId, "ok", None)];
          } else if r.status == "error" {
            if HasErrorCode(r) {
              extended := extended + [Outcome(receiptId, "error", Some(r.details.value.error.value))];
            }
            extended := extended + [Outcome(receiptId, "error", r.message)];
          }
          assert extended == before + ReceiptEntries(receiptId, r);
      }
      j := j + 1;
    }
    assert reached[..j] == reached;
  }

  lemma EntriesSnoc(receipts: seq<(string, Receipt)>, j: nat)
    requires j < |receipts|
    ensures Entries(receipts[..j + 1]) == Entries(receipts[..j]) + PairEntries(receipts[j])
  {
    assert receipts[..j + 1][..j] == receipts[..j];
  }

  /** Every reached receipt contributes at most two entries. */
  lemma {:induction false} EntriesBound(receipts: seq<(string, Receipt)>)
    ensures |Entries(receipts)| <= 2 * |receipts|
    decreases |receipts|
  {
    if receipts != [] {
      var last := receipts[|receipts| - 1];
      EntriesBound(receipts[..|receipts| - 1]);
      assert |PairEntries(last)| <= 2;
    }
  }

  /** A chunk whose fetch throws adds nothing and stops nothing: the chunks around it are processed as if it were absent. */
  lemma FailedChunkSkipped(a: seq<Call<ReceiptMap>>, b: seq<Call<ReceiptMap>>)
    ensures CheckedEntries(a + [Threw] + b) == CheckedEntries(a + b)
  {
    FlatMapAppend(Received, a + [Threw], b);
    FlatMapAppend(Received, a, [Threw]);
    FlatMapAppend(Received, a, b);
    assert Received(Threw) == [];
    assert FlatMap(Received, [Threw]) == FlatMap(Received, []) + Received(Threw);
    assert FlatMap(Received, a + [Threw] + b) == FlatMap(Received, a + b);
  }

  /** The entries of one more answer come after those of the answers before it. */
  lemma CheckedSnoc(front: seq<Call<ReceiptMap>>, last: Call<ReceiptMap>)
    ensures CheckedEntries(front + [last]) == CheckedEntries(front) + Entries(Received(last))
  {
    assert (front + [last])[..|front|] == front;
    FlatMapAppend(PairEntries, ReturnedReceipts(front), Received(last));
  }

  lemma {:induction false} UntilNullStopsAt(receipts: ReceiptMap, k: nat)
    requires k < |receipts| && receipts[k].1.None?
    ensures UntilNull(receipts) == UntilNull(receipts[..k])
    decreases k
  {
    if k > 0 && receipts[0].1.Some? {
      assert receipts[1..][k - 1] == receipts[k];
      UntilNullStopsAt(receipts[1..], k - 1);
      assert receipts[..k][1..] == receipts[1..][..k - 1];
    }
  }

  /**
   * A `null` receipt at position `k` ends its own chunk's walk only: the
   * result is as if that chunk's receipts stopped before `k`, and the
   * chunks around it are unaffected.
   */
  lemma NullReceiptEndsChunk(
    a: seq<Call<ReceiptMap>>, receipts: ReceiptMap, k: nat, b: seq<Call<ReceiptMap>>)
    requires k < |receipts| && receipts[k].1.None?
    ensures CheckedEntries(a + [Returned(receipts)] + b) == CheckedEntries(a + [Returned(receipts[..k])] + b)
  {
    UntilNullStopsAt(receipts, k);
    var x, y := Returned(receipts), Returned(receipts[..k]);
    assert Received(x) == Received(y);
    FlatMapAppend(Received, a + [x], b);
    FlatMapAppend(Received, a, [x]);
    FlatMapAppend(Received, a + [y], b);
    FlatMapAppend(Received, a, [y]);
    assert FlatMap(Received, [x]) == FlatMap(Received, []) + Received(x);
    assert FlatMap(Received, [y]) == FlatMap(Received, []) + Received(y);
  }

  /** One `ok` entry per id, in order. */
  function OkOutcomes(ids: seq<string>): (es: seq<Outcome>)
    ensures |es| == |ids|
  {
    seq(|ids|, k requires 0 <= k < |ids| => Outcome(ids[k], "ok", None))
  }

  lemma OkOutcomesAppend(a: seq<string>, b: seq<string>)
    ensures OkOutcomes(a + b) == OkOutcomes(a) + OkOutcomes(b)
  {
    assert forall k :: 0 <= k < |a + b| ==> OkOutcomes(a + b)[k] == (OkOutcomes(a) + OkOutcomes(b))[k];
  }

  /** Reached receipts that are all `ok`, one for each of `ids` in order, give exactly one `ok` entry each. */
  lemma {:induction false} OkPairsEntries(ids: seq<string>, receipts: seq<(string, Receipt)>)
    requires |receipts| == |ids|
    requires forall k :: 0 <= k < |ids| ==> receipts[k].0 == ids[k] && receipts[k].1.status == "ok"
    ensures Entries(receipts) == OkOutcomes(ids)
    decreases |receipts|
  {
    if receipts != [] {
      var n := |receipts|;
      OkPairsEntries(ids[..n - 1], receipts[..n - 1]);
      assert PairEntries(receipts[n - 1]) == [Outcome(ids[n - 1], "ok", None)];
      assert OkOutcomes(ids) == OkOutcomes(ids[..n - 1]) + [Outcome(ids[n - 1], "ok", None)];
    }
  }

  /** `receipts` holds one non-null `ok` receipt for each of `ids`, in the same order. */
  predicate AllOkFor(ids: seq<string>, receipts: ReceiptMap)
  {
    |receipts| == |ids| &&
    forall k :: 0 <= k < |ids| ==>
      receipts[k].0 == ids[k] && receipts[k].1.Some? && receipts[k].1.value.status == "ok"
  }

  /** When every receipt of a fetched object is `ok`, the walk reaches them all and each gives exactly its own `ok` entry. */
  lemma AllOkEntries(ids: seq<string>, receipts: ReceiptMap)
    requires AllOkFor(ids, receipts)
    ensures Entries(UntilNull(receipts)) == OkOutcomes(ids)
  {
    var reached := UntilNull(receipts);
    assert |reached| == |receipts|;
    OkPairsEntries(ids, reached);
  }

  /** If every fetch answers its chunk with one `ok` receipt per id, in order, the result is one `ok` entry per requested id, in order. */
  lemma {:induction false} AllOkCheck(chunks: seq<seq<string>>, answers: seq<Call<ReceiptMap>>)
    requires |answers| == |chunks|
    requires forall i :: 0 <= i < |chunks| ==> answers[i].Returned? && AllOkFor(chunks[i], answers[i].value)
    ensures CheckedEntries(answers) == OkOutcomes(Flatten(chunks))
    decreases |chunks|
  {
    if chunks != [] {
      var n := |chunks|;
      var front, last := chunks[..n - 1], chunks[n - 1];
      AllOkCheck(front, answers[..n - 1]);
      AllOkEntries(last, answers[n - 1].value);
      assert answers == answers[..n - 1] + [answers[n - 1]];
      CheckedSnoc(answers[..n - 1], answers[n - 1]);
      assert Flatten(chunks) == Flatten(front) + last;
      OkOutcomesAppend(Flatten(front), last);
    }
  }
}
