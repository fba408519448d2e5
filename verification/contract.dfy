/**
 * The `PRFC2Implementor` contract: the guards each action checks before it
 * changes anything, the actions themselves over the stored token map and
 * event log, and what the actions do together.
 *
 * The calling address, which the contract reads from the host's current
 * transaction, is an explicit `caller` parameter; `emit_event` appends to
 * `events`; writing the token map back to storage assigns `tokens`.
 */
module Contract {
  import opened Wrappers
  import opened Tokens
  import opened Events

  /**
   * The checks of `transfer`: the token exists and the caller owns it.
   */
  function TransferCheck(tokens: TokenMap, caller: Address, id: string): (r: Result<()>)
    ensures r.Ok? <==> id in tokens && tokens[id].owner == caller
    ensures id !in tokens ==> r == Abort(TokenNotFound)
    ensures id in tokens && tokens[id].owner != caller ==> r == Abort(NotOwner)
  {
    match GetOwner(tokens, id)
    case Abort(p) => Abort(p)
    case Ok(owner) => if caller == owner then Ok(()) else Abort(NotOwner)
  }

  /**
   * The checks of `transfer_from`, in order: the token exists, it has a
   * spender, the caller is that spender, and `from` owns the token.
   */
  function TransferFromCheck(tokens: TokenMap, caller: Address, from: Address, id: string): (r: Result<()>)
    ensures r.Ok? <==> id in tokens && tokens[id].spender == Some(caller) && tokens[id].owner == from
    ensures id !in tokens ==> r == Abort(TokenNotFound)
    ensures id in tokens && tokens[id].spender == None ==> r == Abort(NoSpender)
    ensures id in tokens && tokens[id].spender.Some? && tokens[id].spender != Some(caller) ==> r == Abort(NotSpender)
    ensures id in tokens && tokens[id].spender == Some(caller) && tokens[id].owner != from ==> r == Abort(FromNotOwner)
  {
    match GetSpender(tokens, id)
    case Abort(p) => Abort(p)
    case Ok(None) => Abort(NoSpender)
    case Ok(Some(spender)) =>
      if caller != spender then Abort(NotSpender)
      else
        match GetOwner(tokens, id)
        case Abort(p) => Abort(p)
        case Ok(owner) => if from == owner then Ok(()) else Abort(FromNotOwner)
  }

  /**
   * The checks of `set_spender`, in order: the token exists, the caller owns
   * it, and the caller has an exclusive spender that differs from the new
   * spender.
   */
  function SetSpenderCheck(tokens: TokenMap, caller: Address, id: string, spender: Option<Address>): (r: Result<()>)
    ensures r.Ok? <==> id in tokens && tokens[id].owner == caller
                       && GetExclusiveSpender(tokens, caller).Some? && GetExclusiveSpender(tokens, caller) != spender
    ensures id !in tokens ==> r == Abort(TokenNotFound)
    ensures id in tokens && tokens[id].owner != caller ==> r == Abort(NotOwner)
    ensures id in tokens && tokens[id].owner == caller && !r.Ok? ==> r == Abort(ExclusiveSpenderCheck)
  {
    match GetOwner(tokens, id)
    case Abort(p) => Abort(p)
    case Ok(owner) =>
      if caller != owner then Abort(NotOwner)
      else
        var exclusive := GetExclusiveSpender(tokens, caller);
        if exclusive.Some? && exclusive != spender then Ok(()) else Abort(ExclusiveSpenderCheck)
  }

  /**
   * The bulk update of `set_exclusive_spender` on the action's copy of the
   * map: visit every token, in any order, and give each one `owner` owns the
   * spender `spender`.
   */
  method SetSpenderOfOwned(tokens: TokenMap, owner: Address, spender: Option<Address>) returns (updated: TokenMap)
    ensures updated == WithSpenderFor(tokens, owner, spender)
  {
    updated := tokens;
    var pending := tokens.Keys;
    while pending != {}
      invariant pending <= tokens.Keys
      invariant updated.Keys == tokens.Keys
      invariant forall id | id in tokens && id !in pending ::
                  updated[id] == if tokens[id].owner == owner then Token(owner, spender) else tokens[id]
      invariant forall id | id in pending :: updated[id] == tokens[id]
      decreases pending
    {
      var id :| id in pending;
      if updated[id].owner == owner {
        updated := updated[id := updated[id].(spender := spender)];
      }
      pending := pending - {id};
    }
  }

  /** The contract's storage and the log of the events it has emitted. */
  class PRFC2Implementor {
    var tokens: TokenMap
    var events: seq<Event>

    /** The contract as loaded from storage with token map `initial`. */
    constructor (initial: TokenMap)
      ensures tokens == initial && events == []
    {
      tokens := initial;
      events := [];
    }

    /**
     * `transfer`: the caller gives token `tokenId` to `to`. The token keeps
     * its spender. A failed check aborts before anything changes.
     */
    method Transfer(caller: Address, tokenId: string, to: Address) returns (r: Result<()>)
      modifies this
      ensures r == TransferCheck(old(tokens), caller, tokenId)
      ensures r.Abort? ==> tokens == old(tokens) && events == old(events)
      ensures r.Ok? ==>
                && tokenId in old(tokens)
                && tokens == Transferred(old(tokens), tokenId, to)
                && events == old(events) + [TransferEvent(caller, to, tokenId).Record()]
    {
      r := TransferCheck(tokens, caller, tokenId);
      if r.Abort? {
        return;
      }
      var local := tokens;
      local := Transferred(local, tokenId, to);
      var event := TransferEvent(caller, to, tokenId);
      var value := event.IntoValue();
      events := events + [Event(event.Topic(), value)];
      tokens := local;
    }

    /**
     * `transfer_from`: the token's spender moves token `tokenId` from its
     * owner `from` to `to`. The token keeps its spender. The event names
     * `from` as the owner.
     */
    method TransferFrom(caller: Address, from: Address, to: Address, tokenId: string) returns (r: Result<()>)
      modifies this
      ensures r == TransferFromCheck(old(tokens), caller, from, tokenId)
      ensures r.Abort? ==> tokens == old(tokens) && events == old(events)
      ensures r.Ok? ==>
                && tokenId in old(tokens)
                && tokens == Transferred(old(tokens), tokenId, to)
                && events == old(events) + [TransferEvent(from, to, tokenId).Record()]
    {
      r := TransferFromCheck(tokens, caller, from, tokenId);
      if r.Abort? {
        return;
      }
      var local := tokens;
      local := Transferred(local, tokenId, to);
      var event := TransferEvent(from, to, tokenId);
      var value := event.IntoValue();
      events := events + [Event(event.Topic(), value)];
      tokens := local;
    }

    /**
     * `set_spender`: the owner of token `tokenId` sets its spender. The
     * `approved` flag, which the contract writes into the event without
     * declaring it, is taken as a parameter.
     */
    method SetSpender(caller: Address, tokenId: string, spender: Option<Address>, approved: bool) returns (r: Result<()>)
      modifies this
      ensures r == SetSpenderCheck(old(tokens), caller, tokenId, spender)
      ensures r.Abort? ==> tokens == old(tokens) && events == old(events)
      ensures r.Ok? ==>
                && tokenId in old(tokens)
                && tokens == WithSpender(old(tokens), tokenId, spender)
                && events == old(events) + [SetSpenderEvent(spender, tokenId, approved).Record()]
    {
      r := SetSpenderCheck(tokens, caller, tokenId, spender);
      if r.Abort? {
        return;
      }
      var local := tokens;
      local := WithSpender(local, tokenId, spender);
      var event := SetSpenderEvent(spender, tokenId, approved);
      var value := event.IntoValue();
      events := events + [Event(event.Topic(), value)];
      tokens := local;
    }

    /**
     * `set_exclusive_spender`: every token the caller owns gets spender
     * `spender`; no other token changes, and one event is emitted however
     * many tokens the caller owns. There is no check, so it never aborts.
     *
     * The updated copy of the map is written back here, as every other
     * action does; the contract as written omits that step (see
     * `SetExclusiveSpenderAsWritten`).
     */
    method SetExclusiveSpender(caller: Address, spender: Option<Address>, approved: bool)
      modifies this
      ensures tokens == WithSpenderFor(old(tokens), caller, spender)
      ensures events == old(events) + [SetExclusiveSpenderEvent(caller, spender, approved).Record()]
    {
      var ownersTokens := SetSpenderOfOwned(tokens, caller, spender);
      var event := SetExclusiveSpenderEvent(caller, spender, approved);
      var value := event.IntoValue();
      events := events + [Event(event.Topic(), value)];
      tokens := ownersTokens;
    }

    /**
     * `set_exclusive_spender` exactly as written: the copy of the map is
     * updated but never written back, so only the event remains.
     */
    method SetExclusiveSpenderAsWritten(caller: Address, spender: Option<Address>, approved: bool)
      modifies this
      ensures tokens == old(tokens)
      ensures events == old(events) + [SetExclusiveSpenderEvent(caller, spender, approved).Record()]
    {
      var ownersTokens := SetSpenderOfOwned(tokens, caller, spender);
      var event := SetExclusiveSpenderEvent(caller, spender, approved);
      var value := event.IntoValue();
      events := events + [Event(event.Topic(), value)];
    }
  }

  /**
   * A transfer leaves the token's spender in place, so the spender the old
   * owner chose can still move the token away from the new owner.
   */
  lemma StaleSpenderSurvivesTransfer(tokens: TokenMap, caller: Address, id: string, to: Address, spender: Address)
    requires TransferCheck(tokens, caller, id).Ok?
    requires tokens[id].spender == Some(spender)
    ensures TransferFromCheck(Transferred(tokens, id, to), spender, to, id).Ok?
  {
  }

  /**
   * `set_spender` always aborts for an owner none of whose tokens has a
   * spender: that owner's exclusive spender is `None`.
   */
  lemma SetSpenderLockedWithoutSpenders(tokens: TokenMap, caller: Address, id: string, spender: Option<Address>)
    requires UniformSpender(tokens, caller, None)
    ensures SetSpenderCheck(tokens, caller, id, spender).Abort?
  {
    if id in tokens && tokens[id].owner == caller {
      assert TokensOwned(tokens, caller) > 0;
    }
  }

  /**
   * A successful `set_spender` by an owner of two or more tokens leaves that
   * owner without an exclusive spender: the changed token now disagrees with
   * the others.
   */
  lemma SetSpenderEndsExclusive(tokens: TokenMap, caller: Address, id: string, spender: Option<Address>)
    requires SetSpenderCheck(tokens, caller, id, spender).Ok?
    requires TokensOwned(tokens, caller) >= 2
    ensures GetExclusiveSpender(WithSpender(tokens, id, spender), caller) == None
  {
    var exclusive := GetExclusiveSpender(tokens, caller);
    var owned := OwnedBy(tokens, caller);
    assert id in owned;
    assert owned - {id} != {} by {
      assert |owned - {id}| == |owned| - 1;
    }
    var other :| other in owned - {id};
    var t := WithSpender(tokens, id, spender);
    assert t[other].spender == exclusive && t[id].spender == spender;
  }

  const P: Address := seq(AddressWidth, _ => 1)
  const Q: Address := seq(AddressWidth, _ => 2)
  const R: Address := seq(AddressWidth, _ => 3)

  /** The tokens of the scenarios below: "1", "2" and "3", all owned by P, none with a spender. */
  const Start: TokenMap := map["1" := Token(P, None), "2" := Token(P, None), "3" := Token(P, None)]

  /**
   * With the write-back, P makes Q its exclusive spender: Q becomes the
   * spender of all three tokens. (As written, the map is unchanged and Q's
   * `transfer_from` aborts with `NoSpender`.)
   */
  lemma ScenarioSetExclusive()
    ensures var t1 := WithSpenderFor(Start, P, Some(Q));
            && GetSpender(t1, "1") == GetSpender(t1, "2") == GetSpender(t1, "3") == Ok(Some(Q))
            && GetExclusiveSpender(t1, P) == Some(Q)
            && TransferFromCheck(t1, Q, P, "2") == Ok(())
  {
    var t0 := Start;
    assert "1" in t0;
    ExclusiveSpenderAfterSetAll(t0, P, Some(Q), P);
  }

  /**
   * With the write-back, Q then moves token "2" to R. Q remains P's exclusive spender over "1"
   * and "3"; R owns "2", and Q, left in place as its spender, is now R's
   * exclusive spender too; R cannot transfer token "1", which it does not own.
   */
  lemma ScenarioTransferFrom()
    ensures var t2 := Transferred(WithSpenderFor(Start, P, Some(Q)), "2", R);
            && GetOwner(t2, "2") == Ok(R)
            && TokensOwned(t2, P) == 2
            && GetExclusiveSpender(t2, P) == Some(Q)
            && GetExclusiveSpender(t2, R) == Some(Q)
            && TransferCheck(t2, R, "1") == Abort(NotOwner)
  {
    var t1 := WithSpenderFor(Start, P, Some(Q));
    var t2 := Transferred(t1, "2", R);
    assert P != R by { assert P[0] != R[0]; }
    assert t1 == map["1" := Token(P, Some(Q)), "2" := Token(P, Some(Q)), "3" := Token(P, Some(Q))];
    assert t2 == map["1" := Token(P, Some(Q)), "2" := Token(R, Some(Q)), "3" := Token(P, Some(Q))];
    assert OwnedBy(t2, P) == {"1", "3"};
    assert OwnedBy(t2, R) == {"2"};
    assert UniformSpender(t2, P, Some(Q));
    assert UniformSpender(t2, R, Some(Q));
  }

  /**
   * What the missing write-back loses: P owns token "1" with no spender and
   * asks for exclusive spender Q. The contract as written leaves the map as
   * it was, where P's exclusive spender is still `None`; with the write-back
   * it is Q.
   */
  lemma ExclusiveSpenderLostWithoutWriteBack()
    ensures var tokens := map["1" := Token(P, None)];
            && TokensOwned(tokens, P) == 1
            && GetExclusiveSpender(tokens, P) == None
            && GetExclusiveSpender(WithSpenderFor(tokens, P, Some(Q)), P) == Some(Q)
  {
    var tokens := map["1" := Token(P, None)];
    assert OwnedBy(tokens, P) == {"1"};
    ExclusiveSpenderAfterSetAll(tokens, P, Some(Q), P);
  }

  /**
   * As written, a map in which no token has a spender stays that way:
   * `set_spender` and `transfer_from` abort and a transfer keeps every
   * spender. (That `set_exclusive_spender` as written leaves the map
   * unchanged is the ensures of `SetExclusiveSpenderAsWritten`.)
   */
  lemma NoSpendersStuckAsWritten(tokens: TokenMap, caller: Address, from: Address, to: Address, id: string, spender: Option<Address>)
    requires forall k | k in tokens :: tokens[k].spender == None
    ensures SetSpenderCheck(tokens, caller, id, spender).Abort?
    ensures TransferFromCheck(tokens, caller, from, id).Abort?
    ensures id in tokens ==> forall k | k in Transferred(tokens, id, to) :: Transferred(tokens, id, to)[k].spender == None
  {
    SetSpenderLockedWithoutSpenders(tokens, caller, id, spender);
  }

  /**
   * The scenario above run through the contract's actions, with the
   * write-back: P's exclusive-spender call, Q's move of "2" to R, and R's
   * refused transfer of "1", which emits nothing.
   */
  method ScenarioThroughActions() returns (moved: Result<()>, refused: Result<()>, final: TokenMap, log: seq<Event>)
    ensures moved == Ok(()) && refused == Abort(NotOwner)
    ensures final == Transferred(WithSpenderFor(Start, P, Some(Q)), "2", R)
    ensures log == [SetExclusiveSpenderEvent(P, Some(Q), true).Record(), TransferEvent(P, R, "2").Record()]
  {
    var contract := new PRFC2Implementor(Start);
    contract.SetExclusiveSpender(P, Some(Q), true);
    ScenarioSetExclusive();
    moved := contract.TransferFrom(Q, P, R, "2");
    ScenarioTransferFrom();
    refused := contract.Transfer(R, "1", R);
    final, log := contract.tokens, contract.events;
  }
}
