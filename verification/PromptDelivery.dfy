/**
 * Prompt delivery to chat sessions (src/lib/promptDelivery.ts): one pending delivery per session, the latest
 * one, and a record of the action ids already consumed.
 */
module PromptDelivery {
  import opened Prelude

  datatype PromptMode = Insert | Send

  datatype DeliveryAction = GenerateIdeas(categoryIds: Option<seq<string>>, ideaCount: Option<real>,
      direction: Option<string>)

  datatype Delivery = Delivery(actionId: string, chatSessionId: string, text: string, mode: PromptMode,
      action: Option<DeliveryAction>)

  datatype State = State(pending: map<string, Delivery>, consumed: set<string>)

  function Delivered(s: State, d: Delivery): State {
    if d.actionId in s.consumed then s else s.(pending := s.pending[d.chatSessionId := d])
  }

  function Consumed(s: State, session: string): State {
    if session !in s.pending then s
    else State(s.pending - {session}, s.consumed + {s.pending[session].actionId})
  }

  function Waiting(s: State, session: string): Option<Delivery> {
    if session in s.pending then Some(s.pending[session]) else None
  }

  /** The module-level state. */
  class Outbox {
    var pendingDeliveries: map<string, Delivery>
    var consumedActionIds: set<string>

    ghost function Now(): State
      reads this
    {
      State(pendingDeliveries, consumedActionIds)
    }

    constructor ()
      ensures Now() == State(map[], {})
    {
      pendingDeliveries, consumedActionIds := map[], {};
    }

    /** `generated` is the id made up for a delivery that comes without one. */
    method DeliverPrompt(chatSessionId: string, text: string, mode: PromptMode, action: Option<DeliveryAction>,
                         actionId: Option<string>, generated: string) returns (id: string)
      modifies this`pendingDeliveries
      ensures id == actionId.GetOr(generated)
      ensures Now() == Delivered(old(Now()), Delivery(id, chatSessionId, text, mode, action))
    {
      id := actionId.GetOr(generated);
      if id in consumedActionIds {
        return;
      }
      pendingDeliveries := pendingDeliveries[chatSessionId := Delivery(id, chatSessionId, text, mode, action)];
    }

    method ConsumeDelivery(chatSessionId: string) returns (d: Option<Delivery>)
      modifies this
      ensures d == Waiting(old(Now()), chatSessionId)
      ensures Now() == Consumed(old(Now()), chatSessionId)
    {
      if chatSessionId !in pendingDeliveries {
        return None;
      }
      d := Some(pendingDeliveries[chatSessionId]);
      pendingDeliveries := pendingDeliveries - {chatSessionId};
      consumedActionIds := consumedActionIds + {d.value.actionId};
    }
  }

  // ----- Runs -----

  datatype Call = Deliver(d: Delivery) | Consume(session: string)

  function Step(s: State, c: Call): State {
    match c
    case Deliver(d) => Delivered(s, d)
    case Consume(session) => Consumed(s, session)
  }

  function After(s: State, calls: seq<Call>): State
    decreases calls
  {
    if calls == [] then s else After(Step(s, calls[0]), calls[1..])
  }

  /** The deliveries handed out by the consuming calls, in order. */
  function HandedOut(s: State, calls: seq<Call>): seq<Delivery>
    decreases calls
  {
    if calls == [] then []
    else (if calls[0].Consume? && calls[0].session in s.pending then [s.pending[calls[0].session]] else [])
         + HandedOut(Step(s, calls[0]), calls[1..])
  }

  function Times(ds: seq<Delivery>, actionId: string): nat {
    if ds == [] then 0 else (if ds[0].actionId == actionId then 1 else 0) + Times(ds[1..], actionId)
  }

  /** Every delivering call of the run is one of the given ones. */
  predicate Uses(calls: seq<Call>, allowed: set<Delivery>) {
    forall i :: 0 <= i < |calls| && calls[i].Deliver? ==> calls[i].d in allowed
  }

  /** Each action id is addressed to a single session. */
  predicate OneSessionEach(allowed: set<Delivery>) {
    forall d, e :: d in allowed && e in allowed && d.actionId == e.actionId ==> d.chatSessionId == e.chatSessionId
  }

  /** Pending deliveries sit under their own session and are not consumed. */
  ghost predicate Safe(s: State, allowed: set<Delivery>) {
    forall k :: k in s.pending ==>
      s.pending[k] in allowed && s.pending[k].chatSessionId == k && s.pending[k].actionId !in s.consumed
  }

  lemma StepSafe(s: State, c: Call, allowed: set<Delivery>)
    requires OneSessionEach(allowed) && Safe(s, allowed) && (c.Deliver? ==> c.d in allowed)
    ensures Safe(Step(s, c), allowed)
  {
    if c.Consume? && c.session in s.pending {
      var d := s.pending[c.session];
      forall k | k in s.pending && k != c.session ensures s.pending[k].actionId != d.actionId {
        assert d in allowed && s.pending[k] in allowed;
      }
    }
  }

  lemma {:induction false} HandedOutOnce(s: State, calls: seq<Call>, allowed: set<Delivery>, actionId: string)
    requires OneSessionEach(allowed) && Safe(s, allowed) && Uses(calls, allowed)
    ensures Times(HandedOut(s, calls), actionId) <= if actionId in s.consumed then 0 else 1
    decreases calls
  {
    if calls != [] {
      var c, s' := calls[0], Step(s, calls[0]);
      StepSafe(s, c, allowed);
      HandedOutOnce(s', calls[1..], allowed, actionId);
      var rest := HandedOut(s', calls[1..]);
      if c.Consume? && c.session in s.pending {
        assert ([s.pending[c.session]] + rest)[1..] == rest;
      } else {
        assert [] + rest == rest;
      }
    }
  }

  /** An action addressed to two sessions is handed out twice. */
  lemma TwoSessionsTwice(d: Delivery, e: Delivery)
    requires d.actionId == e.actionId && d.chatSessionId != e.chatSessionId
    ensures var calls := [Deliver(d), Deliver(e), Consume(d.chatSessionId), Consume(e.chatSessionId)];
            HandedOut(State(map[], {}), calls) == [d, e] && Times([d, e], d.actionId) == 2
  {
    var s0 := State(map[], {});
    var s1 := Step(s0, Deliver(d));
    var s2 := Step(s1, Deliver(e));
    var s3 := Step(s2, Consume(d.chatSessionId));
    var last := [Consume(e.chatSessionId)];
    assert HandedOut(s3, last) == [e] + HandedOut(Step(s3, last[0]), last[1..]) && last[1..] == [];
    var two := [Consume(d.chatSessionId), Consume(e.chatSessionId)];
    assert two[1..] == last;
    assert HandedOut(s2, two) == [d] + [e];
    var three := [Deliver(e), Consume(d.chatSessionId), Consume(e.chatSessionId)];
    assert three[1..] == two;
    assert HandedOut(s1, three) == [d, e];
    var four := [Deliver(d), Deliver(e), Consume(d.chatSessionId), Consume(e.chatSessionId)];
    assert four[1..] == three;
    assert [d, e][1..] == [e] && [e][1..] == [];
    assert Times([e], d.actionId) == 1 + Times([e][1..], d.actionId);
  }

  /**
   * Exactly the condition for exactly-once: over all runs whose deliveries come from a given set, no action is
   * ever handed out twice if and only if the set addresses each action to a single session.
   */
  lemma AtMostOnceExactly(allowed: set<Delivery>)
    ensures OneSessionEach(allowed) <==>
            forall calls, actionId :: Uses(calls, allowed) ==> Times(HandedOut(State(map[], {}), calls), actionId) <= 1
  {
    if OneSessionEach(allowed) {
      forall calls, actionId | Uses(calls, allowed) ensures Times(HandedOut(State(map[], {}), calls), actionId) <= 1 {
        HandedOutOnce(State(map[], {}), calls, allowed, actionId);
      }
    } else {
      var d, e :| d in allowed && e in allowed && d.actionId == e.actionId && d.chatSessionId != e.chatSessionId;
      TwoSessionsTwice(d, e);
      assert Uses([Deliver(d), Deliver(e), Consume(d.chatSessionId), Consume(e.chatSessionId)], allowed);
    }
  }

  predicate Leaves(c: Call, session: string) {
    match c
    case Deliver(d) => d.chatSessionId != session
    case Consume(s) => s != session
  }

  lemma {:induction false} OthersDoNotMatter(s: State, calls: seq<Call>, session: string)
    requires forall i :: 0 <= i < |calls| ==> Leaves(calls[i], session)
    ensures Waiting(After(s, calls), session) == Waiting(s, session)
    decreases calls
  {
    if calls != [] {
      assert Leaves(calls[0], session);
      OthersDoNotMatter(Step(s, calls[0]), calls[1..], session);
    }
  }

  /**
   * Nothing is lost: a delivery whose action is not consumed yet waits through any calls for other sessions,
   * replacing what waited before it; one whose action is consumed changes nothing.
   */
  lemma DeliveryWaits(s: State, d: Delivery, calls: seq<Call>)
    requires forall i :: 0 <= i < |calls| ==> Leaves(calls[i], d.chatSessionId)
    ensures Waiting(After(Step(s, Deliver(d)), calls), d.chatSessionId)
            == if d.actionId in s.consumed then Waiting(s, d.chatSessionId) else Some(d)
  {
    OthersDoNotMatter(Step(s, Deliver(d)), calls, d.chatSessionId);
  }

  /** Delivering again changes nothing exactly when the action is consumed or this very delivery waits already. */
  lemma RepeatIsNoOpExactly(s: State, d: Delivery)
    ensures Step(s, Deliver(d)) == s <==> d.actionId in s.consumed || Waiting(s, d.chatSessionId) == Some(d)
  {
    if d.actionId !in s.consumed && Waiting(s, d.chatSessionId) == Some(d) {
      assert s.pending[d.chatSessionId := d] == s.pending;
    }
    if d.actionId !in s.consumed && Step(s, Deliver(d)) == s {
      assert d.chatSessionId in s.pending[d.chatSessionId := d];
    }
  }

  /** Before the action is consumed a repeated call with another text replaces the one that waits. */
  lemma RepeatCanReplace(d: Delivery)
    requires d.text == "first"
    ensures var e, s := d.(text := "second"), Step(State(map[], {}), Deliver(d));
            && e.actionId == d.actionId && Waiting(s, d.chatSessionId) == Some(d)
            && Waiting(Step(s, Deliver(e)), d.chatSessionId) == Some(e) && e != d
  {
    var e := d.(text := "second");
    assert e.text != d.text;
  }
}
