/**
 * The in-memory receipt store behind the two HTTP handlers: `putReceipt`
 * stores a posted receipt under a new id, `getReceipt` scores a stored one.
 * The id is a parameter (the service draws it from `uuid.NewString`), and the
 * outcome of JSON binding is a parameter too.
 */
module Store {
  import opened Results
  import opened Scoring

  const InvalidReceiptMessage := "The receipt is invalid."
  const NotFoundMessage := "No receipt found for that ID."

  /** The JSON body of a reply. */
  datatype Body = Message(message: string) | Id(id: string) | Points(points: int)

  /** One reply written by a handler: an HTTP status and a body. */
  datatype Reply = Reply(status: nat, body: Body)

  /**
   * What `c.BindJSON` made of a request: the receipt it decoded, or a failure,
   * with whatever it had filled into the receipt before it failed.
   */
  datatype Bind = Bound(receipt: Receipt) | BindFailed(receipt: Receipt)

  /** How `getReceipt` ends: with a reply, or with a panic inside `calculatePoints`. */
  datatype Outcome = Replied(reply: Reply) | Panicked(error: ScoreError)

  /**
   * The replies `putReceipt` writes, in order. A failed binding writes a 400
   * but does not return, so the 200 with the id follows in every case.
   */
  function PutReplies(id: string, bind: Bind): (replies: seq<Reply>)
    ensures |replies| >= 1 && replies[|replies| - 1] == Reply(200, Id(id))
    ensures replies[0].status == 400 <==> bind.BindFailed?
    ensures |replies| == 2 <==> bind.BindFailed?
  {
    (if bind.BindFailed? then [Reply(400, Message(InvalidReceiptMessage))] else []) +
    [Reply(200, Id(id))]
  }

  /** The global `receipts` map, owned by one object. */
  class ReceiptStore {
    var receipts: map<string, Receipt>

    /** An empty store. */
    constructor ()
      ensures receipts == map[]
    {
      receipts := map[];
    }

    /** The store as `main` leaves it: the example receipt under the id "example". */
    constructor WithExample()
      ensures receipts == map["example" := ExampleReceipt()]
    {
      receipts := map["example" := ExampleReceipt()];
    }

    /**
     * `putReceipt`: stores what binding produced under `id`, whether or not
     * binding succeeded, replacing any receipt stored under `id` before, and
     * leaves every other id as it was.
     */
    method Put(id: string, bind: Bind) returns (replies: seq<Reply>)
      modifies this
      ensures receipts == old(receipts)[id := bind.receipt]
      ensures replies == PutReplies(id, bind)
    {
      replies := [];
      if bind.BindFailed? {
        replies := replies + [Reply(400, Message(InvalidReceiptMessage))];
      }
      receipts := receipts[id := bind.receipt];
      replies := replies + [Reply(200, Id(id))];
    }

    /**
     * `getReceipt`: a 404 for an unknown id; otherwise the score of the stored
     * receipt, or the panic that scoring it raises.
     */
    method PointsFor(id: string) returns (outcome: Outcome)
      ensures id !in receipts ==> outcome == Replied(Reply(404, Message(NotFoundMessage)))
      ensures id in receipts && Score(receipts[id]).Ok? ==>
                outcome == Replied(Reply(200, Points(Score(receipts[id]).value)))
      ensures id in receipts && Score(receipts[id]).Err? ==>
                outcome == Panicked(Score(receipts[id]).error)
    {
      if id !in receipts {
        return Replied(Reply(404, Message(NotFoundMessage)));
      }
      var res := CalculatePoints(receipts[id]);
      match res
      case Ok(points) => outcome := Replied(Reply(200, Points(points)));
      case Err(e) => outcome := Panicked(e);
    }
  }

  /** Asking the freshly started service for the example's points gives 109. */
  method ExamplePoints() returns (outcome: Outcome)
    ensures outcome == Replied(Reply(200, Points(109)))
  {
    var store := new ReceiptStore.WithExample();
    ExampleScore();
    outcome := store.PointsFor("example");
  }

  /**
   * A receipt whose binding failed is stored all the same: asking for its id
   * afterwards scores it (or panics on it) instead of answering 404.
   */
  method PutThenPoints(store: ReceiptStore, id: string, bind: Bind) returns (replies: seq<Reply>, outcome: Outcome)
    modifies store
    ensures Score(bind.receipt).Ok? ==>
              outcome == Replied(Reply(200, Points(Score(bind.receipt).value)))
    ensures outcome.Panicked? <==> Score(bind.receipt).Err?
    ensures |replies| == 2 <==> bind.BindFailed?
  {
    replies := store.Put(id, bind);
    outcome := store.PointsFor(id);
  }
}
