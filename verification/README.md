# PRFC2 NFT registry — a Dafny model

This project models the `PRFC2Implementor` contract of `src/lib.rs`, an NFT registry. The contract stores one map from
token id to `Token { owner, spender }`. It answers four views: `tokens_owned`, `get_owner`, `get_spender` and
`get_exclusive_spender`. It runs four actions: `transfer`, `transfer_from`, `set_spender` and `set_exclusive_spender`.
Each successful action emits one event, a one-byte topic plus a byte payload.

Layout, one module per concern:

- `wrappers.dfy` — `Option`, Rust's optional value.
- `utf8.dfy` — `str::as_bytes` as a UTF-8 encoder over Dafny's Unicode `char`, with its decoder and the round trip.
- `tokens.dfy` — `Address` (a fixed-width byte string, 32 bytes), `Token`, the token map, the views as functions,
  and the pure updates the actions apply to their copy of the map.
- `events.dfy` — the three event records, their topics and payloads. Each payload has a layout function and an
  `IntoValue` method that builds it by successive appends. The file also has payload parsers and the proofs of which
  payloads can be read back.
- `contract.dfy` — the checks each action makes before changing anything, the bulk spender update as a loop, the
  class `PRFC2Implementor` with `tokens` and an event log `events`, and lemmas about sequences of actions.

How the draft's code is read. The source does not compile as written; the model takes its evident meaning:

- `lib.rs:48` compares `Some(token.spender)` with an `Option`. It is read as `token.spender == first_token.spender`.
- `lib.rs:98-99` compares an address with an `Option`. It is read as "`get_exclusive_spender(caller)` is `Some(e)`
  and `Some(e)` differs from the new spender".
- `approved` (`lib.rs:107`, `188`, `207`) is not a field of either event struct. It is a `bool` field of the event
  records here and an explicit parameter of `SetSpender` and `SetExclusiveSpender`. It writes one trailing byte, 1
  or 0.
- Extending a buffer with an `Option<PublicAddress>` (`lib.rs:186`, `206`) writes the 32 address bytes for `Some`
  and nothing for `None`. A payload therefore reaches its reserved capacity exactly when the spender is present.
- The caller, which the contract reads from `Transaction::new().from_address`, is a `caller` parameter.
  `emit_event` appends to `events`. `Self::set_tokens` assigns `tokens`.
- `get_exclusive_spender` takes "the first" owned token in the map's iteration order. The model picks any owned
  token; the result is proved not to depend on the choice.

Behaviour of the code worth knowing, each stated by a lemma:

- `transfer` and `transfer_from` leave the token's spender in place. Clearing it would stop the old spender;
  `StaleSpenderSurvivesTransfer` shows that the old spender can still move the token away from its new owner.
- `set_spender` asserts that the caller HAS an exclusive spender and that it differs from the new spender, and
  rejects the call otherwise. `SetSpenderLockedWithoutSpenders` shows that an owner whose tokens have no spender can
  never call `set_spender`.
- Together with the missing write-back of `set_exclusive_spender` (see Findings), a token map in which no token has
  a spender stays that way under every action as written, so `set_spender` and `transfer_from` always abort on it.
  `NoSpendersStuckAsWritten` states this for `set_spender`, `transfer_from` and `transfer`; the ensures
  `tokens == old(tokens)` of `SetExclusiveSpenderAsWritten` gives it for `set_exclusive_spender`.
- `transfer_from` accepts only the token's own spender. An exclusive spender is stored as the spender of each of the
  owner's tokens, so it passes this check token by token.
- A missing spender writes no bytes rather than 32 zero bytes, and the two spender events end in a flag byte.

## Model

| member | source | states |
|---|---|---|
| `Tokens.TokensOwned` | src/lib.rs:19-23 | the count of tokens `address` owns; at most the number of tokens; zero exactly when no token has that owner |
| `Tokens.GetOwner` | src/lib.rs:25-29 | the stored owner of a known id; an unknown id panics with `TokenNotFound` |
| `Tokens.GetSpender` | src/lib.rs:31-35 | the stored spender of a known id; an unknown id panics with `TokenNotFound` |
| `Tokens.GetExclusiveSpender` | src/lib.rs:37-53 | `None` when the address owns nothing; the common spender when all its tokens share one; `None` when two of its tokens disagree; a `Some` result is the spender of every token it owns |
| `Tokens.ExclusiveSpenderLocal` | src/lib.rs:38-53 | the exclusive spender depends only on which tokens the address owns and their spenders, not on iteration order or other tokens |
| `Tokens.Transferred` | src/lib.rs:60-62 | after `get_mut(id).owner = to`, the token is owned by `to`, keeps its spender, and every other token and the id set are unchanged |
| `Tokens.WithSpender` | src/lib.rs:101-103 | after `get_mut(id).spender = s`, the token has spender `s` and the same owner; every other token and the id set are unchanged |
| `Tokens.WithSpenderFor` | src/lib.rs:119-120 | every token of `owner`, and no other, gets spender `s`; owners and ids are unchanged |
| `Tokens.TransferredCounts` | src/lib.rs:56-72 | a transfer lowers the old owner's `tokens_owned` by one, raises the recipient's by one, and leaves every other count unchanged |
| `Tokens.WithSpenderKeepsOwnership` | src/lib.rs:101-103 | changing one token's spender changes no address's owned tokens or count |
| `Tokens.WithSpenderForKeepsOwnership` | src/lib.rs:119-120 | the bulk spender update changes no address's owned tokens or count |
| `Tokens.ExclusiveSpenderAfterSetAll` | src/lib.rs:116-128 | after the bulk update, an owner of at least one token has exclusive spender `s`; every other address keeps its exclusive spender |
| `Utf8.Encode` | src/lib.rs:166-169 | `as_bytes` of a string takes between one and four bytes per character |
| `Utf8.DecodeEncode` | src/lib.rs:169 | decoding the UTF-8 bytes of a token id gives back the id |
| `Utf8.EncodeInjective` | src/lib.rs:169 | distinct token ids have distinct bytes |
| `Events.OptionBytes` | src/lib.rs:186 | extending with an optional address writes 32 bytes if present, none if absent |
| `Events.Flag` | src/lib.rs:188 | the flag is one byte, 1 exactly when approved, else 0 |
| `Events.TransferEvent.Payload` | src/lib.rs:162-172 | the transfer payload is owner, then recipient, then the id's UTF-8 bytes, and its length equals the reserved capacity |
| `Events.TransferEvent.IntoValue` | src/lib.rs:162-172 | the successive appends build exactly that payload and fill the capacity |
| `Events.SetSpenderEvent.Payload` | src/lib.rs:180-191 | spender bytes, then the id's bytes, then the flag; within the reserved capacity, and equal to it exactly when the spender is `Some` |
| `Events.SetSpenderEvent.IntoValue` | src/lib.rs:180-191 | the successive appends build exactly that payload, within capacity |
| `Events.SetExclusiveSpenderEvent.Payload` | src/lib.rs:199-210 | owner, then spender bytes, then the flag; within the reserved capacity, and equal to it exactly when the spender is `Some` |
| `Events.SetExclusiveSpenderEvent.IntoValue` | src/lib.rs:199-210 | the successive appends build exactly that payload, within capacity |
| `Events.TopicsDistinct` | src/lib.rs:157-197 | the topics are the single bytes 0, 1 and 2, pairwise distinct, so a topic names its event kind |
| `Events.TransferPayloadRoundTrip` | src/lib.rs:162-172 | a transfer payload can be read back to its owner, recipient and token id |
| `Events.SetExclusiveSpenderPayloadRoundTrip` | src/lib.rs:199-210 | an exclusive-spender payload can be read back to its owner, optional spender and flag |
| `Events.SetSpenderPayloadAmbiguous` | src/lib.rs:180-191 | two different spender events can have the same payload: a spender with an empty id, and no spender with a 32-character id |
| `Contract.TransferCheck` | src/lib.rs:57-58 | `transfer` proceeds exactly when the token exists and the caller owns it; otherwise it panics with `TokenNotFound` or `NotOwner` |
| `Contract.TransferFromCheck` | src/lib.rs:76-78 | `transfer_from` proceeds exactly when the token exists, its spender is the caller and `from` owns it; each failing check panics with its own reason, in source order |
| `Contract.SetSpenderCheck` | src/lib.rs:96-99 | `set_spender` proceeds exactly when the caller owns the token, has an exclusive spender, and that spender differs from the new one |
| `Contract.SetSpenderOfOwned` | src/lib.rs:119-120 | the loop over all tokens yields the map in which exactly the owner's tokens have the new spender |
| `Contract.PRFC2Implementor.constructor` | src/lib.rs:12-15 | the contract holds the given token map and an empty event log |
| `Contract.PRFC2Implementor.Transfer` | src/lib.rs:55-72 | aborts with state and log unchanged when its check fails; otherwise only the token's owner changes, to `to`, and one topic-0 event naming the caller as owner is appended |
| `Contract.PRFC2Implementor.TransferFrom` | src/lib.rs:74-92 | aborts with state and log unchanged when its check fails; otherwise only the token's owner changes, to `to`, and one topic-0 event naming `from` as owner is appended |
| `Contract.PRFC2Implementor.SetSpender` | src/lib.rs:94-113 | aborts with state and log unchanged when its check fails; otherwise only the token's spender changes, and one topic-1 event is appended |
| `Contract.PRFC2Implementor.SetExclusiveSpender` | src/lib.rs:115-128 | never aborts; exactly the caller's tokens get the new spender, and one topic-2 event is appended whatever the number of tokens |
| `Contract.PRFC2Implementor.SetExclusiveSpenderAsWritten` | src/lib.rs:115-128 | as written, the token map is unchanged and only the topic-2 event is appended |
| `Contract.StaleSpenderSurvivesTransfer` | src/lib.rs:56-92 | after a transfer, the token's previous spender can still move it away from the new owner |
| `Contract.SetSpenderLockedWithoutSpenders` | src/lib.rs:96-99 | `set_spender` always aborts for an owner none of whose tokens has a spender |
| `Contract.SetSpenderEndsExclusive` | src/lib.rs:95-113 | a successful `set_spender` by an owner of two or more tokens leaves that owner without an exclusive spender |
| `Contract.ScenarioSetExclusive` | src/lib.rs:116-128 | with the write-back: P owns three tokens and makes Q its exclusive spender; all three report spender Q and Q may move token "2" |
| `Contract.ScenarioTransferFrom` | src/lib.rs:75-92 | with the write-back, Q then moves "2" to R. R owns it, P keeps two tokens with exclusive spender Q, Q becomes R's exclusive spender, and R cannot transfer "1" |
| `Contract.ScenarioThroughActions` | src/lib.rs:55-128 | the same scenario run through the contract's actions (with the write-back): P's exclusive-spender call, Q's move of "2" to R and R's refused transfer of "1" give those outcomes, the final map and a log of two events; the refused transfer emits none |
| `Contract.NoSpendersStuckAsWritten` | src/lib.rs:74-128 | as written, when no token has a spender, `set_spender` and `transfer_from` abort and `transfer` keeps every spender `None`; that `set_exclusive_spender` as written keeps the map is the `tokens == old(tokens)` ensures of `SetExclusiveSpenderAsWritten` |
| `Contract.ExclusiveSpenderLostWithoutWriteBack` | src/lib.rs:115-128 | an owner of one token with no spender keeps no exclusive spender if the map is not written back, and gets the requested one if it is |

## Findings

| source | as written | input that shows it | evidently intended | confidence | as-written member | corrected member |
|---|---|---|---|---|---|---|
| src/lib.rs:115-128 | `set_exclusive_spender` updates its copy of the token map but never calls `Self::set_tokens`, so the new spenders are discarded and only the event persists | P owns token "1" with no spender and calls `set_exclusive_spender(Some(Q))`: afterwards `get_exclusive_spender(P)` is still `None` | write the copy back, as `transfer`, `transfer_from` and `set_spender` do at lines 71, 91 and 111, so that P's tokens get spender Q | high; not executed | `Contract.PRFC2Implementor.SetExclusiveSpenderAsWritten`, `Contract.ExclusiveSpenderLostWithoutWriteBack`, `Contract.NoSpendersStuckAsWritten` | `Contract.PRFC2Implementor.SetExclusiveSpender`, `Tokens.ExclusiveSpenderAfterSetAll`, `Contract.ScenarioSetExclusive`, `Contract.ScenarioTransferFrom` |

## Left out

- The byte encoding of `Map<K, V>` (`new`, `to_hash_map`, `from_hash_map`, `src/lib.rs:214-253`) is left out. It only
  delegates to the `borsh` crate, which is not part of this model. The stored map is a Dafny `map<string, Token>`, and
  each action's `to_hash_map` copy is that map value.
- The unused `Tokens { data }` struct (`src/lib.rs:137-139`) is left out.
- Host plumbing from `pchain_sdk` is left out: the contract/action/view macros, dispatch, and loading and saving
  storage. The transaction's sender is a parameter. `emit_event` is an append to the event log.
- `HashMap` iteration order is not modelled: the bulk update visits ids in any order, and the views are proved
  independent of order. `Vec::with_capacity` allocation is reduced to the capacity number it reserves.
- Concrete address bytes are not modelled. `pchain_types::PublicAddress` is a 32-byte string; nothing depends on its
  contents.
- Panic messages are not modelled. A panic is an `Abort` carrying the failed check. The Rust ownership errors of the
  draft (`token_id` used after being moved) are ignored.
- `Tokens.TokensOwned` returns an unbounded count. The source's `count() as u64` widens a `usize` and loses nothing.
- NoSpendersStuckAsWritten: does not itself state that the as-written `set_exclusive_spender` keeps the map, because a
  lemma cannot call a method; that fact is the `tokens == old(tokens)` ensures of `SetExclusiveSpenderAsWritten`.
