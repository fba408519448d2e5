/**
 * The token state of the registry: the `Token` record, the map from token id
 * to token that the contract stores, the read-only views over it and the
 * single-token and bulk updates that the actions apply to a copy of it.
 */
module Tokens {
  import opened Wrappers
  import opened Utf8

  /** Width in bytes of `pchain_types::PublicAddress`. */
  const AddressWidth: nat := 32

  /** An account address: an opaque fixed-width byte string. */
  type Address = a: seq<byte> | |a| == AddressWidth witness seq(AddressWidth, _ => 0)

  /** `Token { owner, spender }`: the spender may transfer this one token. */
  datatype Token = Token(owner: Address, spender: Option<Address>)

  /** The contract's `tokens` field, keyed by token id. */
  type TokenMap = map<string, Token>

  /** Why a call panics; every panic aborts the call with no effect. */
  datatype Panic =
    | TokenNotFound          // `unwrap` of a lookup of an unknown token id
    | NotOwner               // the caller is not the token's owner
    | NoSpender              // `unwrap` of a token spender that is `None`
    | NotSpender             // the caller is not the token's spender
    | FromNotOwner           // `from_address` is not the token's owner
    | ExclusiveSpenderCheck  // the exclusive-spender assertion of `set_spender`

  /** The value of a view or action, or the panic that aborted it. */
  datatype Result<+T> = Ok(value: T) | Abort(panic: Panic)

  /** The ids of the tokens `address` owns. */
  function OwnedBy(tokens: TokenMap, address: Address): set<string> {
    set id | id in tokens && tokens[id].owner == address
  }

  /** Every token `address` owns has spender `s`. */
  predicate UniformSpender(tokens: TokenMap, address: Address, s: Option<Address>) {
    forall id | id in tokens && tokens[id].owner == address :: tokens[id].spender == s
  }

  /** View `tokens_owned`: how many tokens `address` owns. */
  function TokensOwned(tokens: TokenMap, address: Address): (n: nat)
    ensures n <= |tokens|
    ensures n == 0 <==> forall id | id in tokens :: tokens[id].owner != address
  {
    var owned := OwnedBy(tokens, address);
    assert owned <= tokens.Keys;
    SubsetCardinality(owned, tokens.Keys);
    assert (forall id | id in tokens :: tokens[id].owner != address) ==> owned == {};
    assert forall id | id in tokens && tokens[id].owner == address :: |owned| > 0 by {
      forall id | id in tokens && tokens[id].owner == address ensures |owned| > 0 {
        assert id in owned;
      }
    }
    |owned|
  }

  lemma SubsetCardinality<T>(a: set<T>, b: set<T>)
    requires a <= b
    ensures |a| <= |b|
  {
    assert b == a + (b - a);
  }

  /** View `get_owner`: the owner of token `id`; unknown ids panic. */
  function GetOwner(tokens: TokenMap, id: string): (r: Result<Address>)
    ensures r.Ok? <==> id in tokens
    ensures r.Ok? ==> r.value == tokens[id].owner
    ensures r.Abort? ==> r.panic == TokenNotFound
  {
    if id in tokens then Ok(tokens[id].owner) else Abort(TokenNotFound)
  }

  /** View `get_spender`: the spender of token `id`; unknown ids panic. */
  function GetSpender(tokens: TokenMap, id: string): (r: Result<Option<Address>>)
    ensures r.Ok? <==> id in tokens
    ensures r.Ok? ==> r.value == tokens[id].spender
    ensures r.Abort? ==> r.panic == TokenNotFound
  {
    if id in tokens then Ok(tokens[id].spender) else Abort(TokenNotFound)
  }

  /**
   * View `get_exclusive_spender`: take the first token `address` owns, in
   * whatever order the map yields them, and return its spender when every
   * token `address` owns has that same spender; otherwise, and when
   * `address` owns nothing, `None`. The result does not depend on which
   * token comes first.
   */
  function GetExclusiveSpender(tokens: TokenMap, address: Address): (r: Option<Address>)
    ensures TokensOwned(tokens, address) == 0 ==> r == None
    ensures forall s | TokensOwned(tokens, address) > 0 && UniformSpender(tokens, address, s) :: r == s
    ensures forall id, id' | id in tokens && id' in tokens && tokens[id].owner == address && tokens[id'].owner == address
              && tokens[id].spender != tokens[id'].spender :: r == None
    ensures r.Some? ==> TokensOwned(tokens, address) > 0 && UniformSpender(tokens, address, r)
  {
    var owned := OwnedBy(tokens, address);
    if owned == {} then None
    else
      var first :| first in owned;
      if forall id | id in owned :: tokens[id].spender == tokens[first].spender then tokens[first].spender
      else None
  }

  /** `tokens.get_mut(id).unwrap().owner = to` on the action's copy of the map. */
  function Transferred(tokens: TokenMap, id: string, to: Address): (t: TokenMap)
    requires id in tokens
    ensures t.Keys == tokens.Keys
    ensures t[id] == Token(to, tokens[id].spender)
    ensures forall other | other in tokens && other != id :: t[other] == tokens[other]
  {
    tokens[id := tokens[id].(owner := to)]
  }

  /** `tokens.get_mut(id).unwrap().spender = s` on the action's copy of the map. */
  function WithSpender(tokens: TokenMap, id: string, s: Option<Address>): (t: TokenMap)
    requires id in tokens
    ensures t.Keys == tokens.Keys
    ensures t[id] == Token(tokens[id].owner, s)
    ensures forall other | other in tokens && other != id :: t[other] == tokens[other]
  {
    tokens[id := tokens[id].(spender := s)]
  }

  /**
   * `values_mut().filter(owner == owner).for_each(spender = s)`: the map in
   * which every token of `owner`, and no other, has spender `s`.
   */
  function WithSpenderFor(tokens: TokenMap, owner: Address, s: Option<Address>): (t: TokenMap)
    ensures t.Keys == tokens.Keys
    ensures forall id | id in tokens && tokens[id].owner == owner :: t[id] == Token(owner, s)
    ensures forall id | id in tokens && tokens[id].owner != owner :: t[id] == tokens[id]
  {
    map id | id in tokens :: if tokens[id].owner == owner then tokens[id].(spender := s) else tokens[id]
  }

  /**
   * A transfer moves one token from its owner's count to the recipient's;
   * every other address keeps its count.
   */
  lemma TransferredCounts(tokens: TokenMap, id: string, to: Address, a: Address)
    requires id in tokens
    ensures TokensOwned(Transferred(tokens, id, to), a)
         == TokensOwned(tokens, a) - (if a == tokens[id].owner then 1 else 0) + (if a == to then 1 else 0)
  {
    var t := Transferred(tokens, id, to);
    var before, after := OwnedBy(tokens, a), OwnedBy(t, a);
    var rest := before - {id};
    assert after == if a == to then rest + {id} else rest;
    assert before == if a == tokens[id].owner then rest + {id} else rest;
  }

  /** Changing one token's spender changes no address's tokens. */
  lemma WithSpenderKeepsOwnership(tokens: TokenMap, id: string, s: Option<Address>, a: Address)
    requires id in tokens
    ensures OwnedBy(WithSpender(tokens, id, s), a) == OwnedBy(tokens, a)
    ensures TokensOwned(WithSpender(tokens, id, s), a) == TokensOwned(tokens, a)
  {
    var t := WithSpender(tokens, id, s);
    assert forall k | k in tokens :: t[k].owner == tokens[k].owner;
  }

  /** Changing the spenders of all of `owner`'s tokens changes no address's tokens. */
  lemma WithSpenderForKeepsOwnership(tokens: TokenMap, owner: Address, s: Option<Address>, a: Address)
    ensures OwnedBy(WithSpenderFor(tokens, owner, s), a) == OwnedBy(tokens, a)
    ensures TokensOwned(WithSpenderFor(tokens, owner, s), a) == TokensOwned(tokens, a)
  {
    var t := WithSpenderFor(tokens, owner, s);
    assert forall k | k in tokens :: t[k].owner == tokens[k].owner;
  }

  /**
   * `get_exclusive_spender(a)` depends only on which tokens `a` owns and on
   * their spenders.
   */
  lemma ExclusiveSpenderLocal(t1: TokenMap, t2: TokenMap, a: Address)
    requires OwnedBy(t1, a) == OwnedBy(t2, a)
    requires forall id | id in OwnedBy(t1, a) :: t1[id].spender == t2[id].spender
    ensures GetExclusiveSpender(t1, a) == GetExclusiveSpender(t2, a)
  {
    var owned := OwnedBy(t1, a);
    assert TokensOwned(t1, a) == TokensOwned(t2, a);
    if owned != {} {
      var id :| id in owned;
      var s := t1[id].spender;
      if UniformSpender(t1, a, s) {
        assert UniformSpender(t2, a, s);
      } else {
        var other :| other in t1 && t1[other].owner == a && t1[other].spender != s;
        assert other in owned;
      }
    }
  }

  /**
   * After every token of `owner` is given spender `s`, `s` is the exclusive
   * spender of `owner` (if it owns anything); every other address keeps its
   * exclusive spender.
   */
  lemma ExclusiveSpenderAfterSetAll(tokens: TokenMap, owner: Address, s: Option<Address>, a: Address)
    ensures a == owner && TokensOwned(tokens, owner) > 0 ==> GetExclusiveSpender(WithSpenderFor(tokens, owner, s), a) == s
    ensures a != owner ==> GetExclusiveSpender(WithSpenderFor(tokens, owner, s), a) == GetExclusiveSpender(tokens, a)
  {
    var t := WithSpenderFor(tokens, owner, s);
    WithSpenderForKeepsOwnership(tokens, owner, s, a);
    if a == owner && TokensOwned(tokens, owner) > 0 {
      assert UniformSpender(t, a, s);
    } else if a != owner {
      ExclusiveSpenderLocal(t, tokens, a);
    }
  }
}
