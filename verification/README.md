# Registration gatekeeper: address check and registration ledger

A chat bot collects Solana addresses from users by direct message. It keeps
three process-wide values: a counter of accepted registrations
(`valid_count`), the set of addresses taken by fresh registrations
(`recorded_addresses`), and the map from user id to the address that user
registered (`user_addresses`). This project models two things and proves
properties about them:

- `AddressValidator` (`address_validator.dfy`) models the address check.
  An address is accepted when it has 32 to 44 characters and every character
  is in the 58-symbol Base58 alphabet. The alphabet leaves out `0`, `O`, `I`
  and `l`. The constant is the source's alphabet string, written as its
  three runs (digits, capitals, small letters). The check is related to an
  independent description of the alphabet by character ranges.
- `Registration` (`registration.dfy`) models the ledger behind the
  direct-message handler. It has two layers:
  - `LedgerState` and `Step` give the pure decision for one submission.
    `Run` gives the decisions for a sequence of submissions.
  - The class `Ledger` holds the three values as fields that `Submit` updates
    in place, and `Submit` is proved to follow `Step`.

  Each submission is decided in the source's order:
  1. The user already has a registration: report the stored address.
  2. The text fails the address check: reject it.
  3. The address is already taken: accept it only for a user who is boosting
     and is on the server. This override has no cap.
  4. The address is fresh: accept it while the shared counter is below 99.
     Otherwise report that the limit is reached.

  Every acceptance increments the counter and reports its new value.

The cap on fresh addresses follows the code, not the natural reading of
"99 fresh registrations". The test at `main.py:117` reads the shared counter.
Booster acceptances increment that same counter (`main.py:98`). So each
booster acceptance uses up one of the 99 numbers that fresh addresses can
get, while the booster path itself is never capped
(`LimitCountsBoosterAcceptances`, and `Step`'s `number <= Limit` only for
`Accepted`).

The two guild lookups (`main.py:91-95`) are inputs to the model: the
booleans `boosted` and `memberOnServer` of a `Submission`. `Submit` receives
text that the caller has already trimmed.

## Model

| member | source | states |
|---|---|---|
| `AddressValidator.AlphabetIsCharClass` | main.py:26 | the alphabet has 58 symbols; a character is in it exactly when it is a digit 1-9, a capital other than I and O, or a small letter other than l |
| `AddressValidator.ValidIff` | main.py:21-29 | the check holds exactly when 32 <= length <= 44 and every character is in those ranges (both directions) |
| `AddressValidator.ValidExcludesLookalikes` | main.py:26-29 | no accepted address contains `0`, `O`, `I` or `l` |
| `AddressValidator.LengthBoundaries` | main.py:27-28 | allowed characters at length 31 or 45 are rejected; at length 32 or 44 they are accepted |
| `Registration.Init` | main.py:17-19 | the start state: counter 0, nothing taken, nobody registered, and the ledger invariant holds |
| `Registration.Step` | main.py:77-136 | a rejection leaves the state unchanged. An acceptance needs a new user and a valid address; it raises the counter by one, reports the new counter, registers the user and keeps the address taken. A fresh acceptance is numbered at most 99 and its address was not taken; a booster acceptance reuses a taken address for a boosting member |
| `Registration.StepPreservesValid` | main.py:78-123 | every submission keeps the invariant: counter equals the number of registered users, stored addresses are valid, every taken address is held by some user, at most `counter` and at most 99 addresses taken |
| `Registration.RecordedAreValid` | main.py:87-119 | every taken address passes the address check |
| `Registration.RunPreservesValid` | main.py:17-19 | the invariant holds after any sequence of submissions |
| `Registration.RunOnlyGrows` | main.py:97-120 | across any run, registrations are never removed or overwritten, taken addresses stay taken, and the counter never decreases |
| `Registration.RunIssuesConsecutiveNumbers` | main.py:97-123 | the numbers issued in a run are the counter's next values, consecutive and in call order; the final counter is the last one issued |
| `Registration.NumbersFromStart` | main.py:17-123 | from process start, the numbers issued are exactly 1, 2, ..., N and the counter ends at N |
| `Registration.RunRepeatSubmitter` | main.py:78-84 | a user already registered is answered with the stored address at every later point of a run, whatever text they send |
| `Registration.RunAcceptsOncePerUser` | main.py:78-120 | at most one submission per user is accepted; every later one reports the address that was accepted |
| `Registration.RunTakenStaysTaken` | main.py:89-116 | a submission of an address that is already taken, from someone who is not both boosting and on the server, is rejected as a duplicate or answered as a repeat |
| `Registration.RunFreshAddressIsExclusive` | main.py:89-119 | after a fresh acceptance of an address, no later submission of it is accepted unless the submitter is boosting and on the server |
| `Registration.LimitCountsBoosterAcceptances` | main.py:97-134 | once the shared counter is at 99, a fresh valid address from a new user gets "limit reached", while a taken address from a boosting member is still accepted with the next number |
| `Registration.ExampleRun` | main.py:77-123 | a worked run: fresh acceptance #1, refused duplicate, fresh acceptance #2, repeat submitter told their address, booster reuse #3; the taken set holds only the two fresh addresses |
| `Registration.Ledger.constructor` | main.py:17-19 | a new ledger is in the start state |
| `Registration.Ledger.Submit` | main.py:77-136 | the branch-by-branch effect of one submission on the fields: the reported outcome, the counter raised by exactly one on acceptance, the taken set grown only on a fresh acceptance, the user map grown by one entry, and no change on any rejection; the result equals `Step` of the old state, and the invariant is kept |
| `Registration.Ledger.OnMessage` | main.py:73 | only direct messages from non-bot authors reach `Submit`; any other message gets no reply and changes nothing |

## Left out

- Bot setup, intents, `bot.run`, `on_ready` and `bot.process_commands` (main.py:1-14, 31-33, 138-142). These are library I/O with nothing to verify.
- `on_member_update` and `on_member_join` (main.py:35-63). They only post announcements and never touch the ledger.
- Every `channel.send` and `print`, the reply texts, the announcement to the boost channel, and the two-digit number formatting. The model returns an `Outcome` tag and the integer number instead.
- The guild and `premium_since` lookups (main.py:91-95). These are calls into the chat library. They become the boolean inputs `boosted` and `memberOnServer`.
- `str.strip()` at main.py:74 and its Unicode whitespace rules. The caller passes already-trimmed text.
- Event-loop interleaving. There is no `await` between the already-submitted check at main.py:78 and the updates at main.py:98-99 and 118-120, so each `Submit` is atomic and calls run one after another.
- Python strings may hold lone surrogate code points, which a Dafny `char` cannot. Such text fails the address check in the source anyway, since no surrogate is in the alphabet.
- The values of user ids are opaque here (`int`). Nothing in the ledger depends on them beyond equality.
