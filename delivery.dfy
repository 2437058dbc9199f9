/**
 * What an emit does, as a value: the sends it makes. `addr.do_send(msg)` is actix message
 * passing; the model records each send as a `Delivery` of `message` to handle `to`, for the
 * socket `sid`, and an emit returns the sequence of sends in the order it made them.
 */
module Delivery {
  datatype Delivery<H, M> = Delivery(sid: string, to: H, message: M)

  /** The sockets the sends went to. */
  function Recipients<H, M>(sent: seq<Delivery<H, M>>): set<string> {
    set i | 0 <= i < |sent| :: sent[i].sid
  }

  /** `sent` delivers `m` exactly once to each socket of `targets`, through its handle, and to nobody else. */
  ghost predicate DeliversOnce<H, M>(sent: seq<Delivery<H, M>>, targets: set<string>, handles: map<string, H>, m: M) {
    Recipients(sent) == targets &&
    (forall i, j :: 0 <= i < j < |sent| ==> sent[i].sid != sent[j].sid) &&
    (forall i :: 0 <= i < |sent| ==> sent[i].sid in handles && sent[i].to == handles[sent[i].sid] && sent[i].message == m)
  }

  /** Nothing sent covers no target. */
  lemma DeliversToNobody<H, M>(handles: map<string, H>, m: M)
    ensures DeliversOnce([], {}, handles, m)
  {
  }

  /** One more send, to a socket not yet covered, covers it too. */
  lemma DeliversOneMore<H, M>(sent: seq<Delivery<H, M>>, targets: set<string>, handles: map<string, H>, m: M, sid: string)
    requires DeliversOnce(sent, targets, handles, m)
    requires sid !in targets && sid in handles
    ensures DeliversOnce(sent + [Delivery(sid, handles[sid], m)], targets + {sid}, handles, m)
  {
    var sent' := sent + [Delivery(sid, handles[sid], m)];
    assert forall i :: 0 <= i < |sent| ==> sent'[i] == sent[i];
    assert Recipients(sent') == Recipients(sent) + {sid} by {
      assert sent'[|sent|].sid == sid;
    }
  }

  /** Exactly-once delivery sends as many messages as there are targets. */
  lemma {:induction false} DeliveryCount<H, M>(sent: seq<Delivery<H, M>>, targets: set<string>, handles: map<string, H>, m: M)
    requires DeliversOnce(sent, targets, handles, m)
    ensures |sent| == |targets|
    decreases |sent|
  {
    if |sent| > 0 {
      var front := sent[..|sent| - 1];
      var last := sent[|sent| - 1];
      assert forall i :: 0 <= i < |front| ==> front[i] == sent[i];
      assert Recipients(sent) == Recipients(front) + {last.sid};
      assert last.sid !in Recipients(front);
      DeliveryCount(front, Recipients(front), handles, m);
    }
  }
}
