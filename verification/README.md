# Verified model of mwc713's codecs, reconciliation and listeners

This project models, in Dafny 4.11, the parts of the mwc713 wallet whose correctness cannot be read
off a single function, and proves what they guarantee for every input, every run or every
interleaving. `dafny verify dfyconfig.toml` checks all of it.

| files | what they model |
|---|---|
| `Common.dfy`, `Sequences.dfy`, `Positional.dfy` | machine integers and outcomes; subsequences; positional numbers in any base, and the inequality 256^8 <= 58^11 |
| `Base58.dfy`, `Base58Codec.dfy`, `Base58Check.dfy` | Base58 text (draft-msporny-base58, sections 2 to 4), the two in-place big-number loops that compute it, and the checksummed form |
| `Hex.dfy` | hexadecimal text (section 8 of RFC 4648, lower case) |
| `AddressGrammar.dfy`, `Addresses.dfy` | the address patterns as recognisers, printing and parsing of contact addresses |
| `Merge.dfy`, `MergeLaws.dfy` | assigning outputs to transactions (`calc_best_merge`) |
| `BulkValidation.dfy`, `BulkLaws.dfy` | validating transactions against node dumps (`txs_bulk_validate`) |
| `TxProofs.dfy` | checking a transaction proof (`verify_tx_proof`) |
| `Executor.dfy` | the future that runs a request handler on its own thread |
| `Listeners.dfy`, `ListenerLaws.dfy`, `ListenerTraces.dfy`, `ListenerLanguages.dfy` | the websocket and Keybase listener loops and the events they emit |

## How the model relates to the code

- Loops over buffers, deques, indexes and listener state are methods with loops over arrays, class
  fields or sequence variables, each proved equal to a specification function. The laws are proved about
  those functions. Code that is expressions and calls is functions. The worker and poller of the executor
  are a state machine over their atomic steps.
- A Rust panic is the outcome `Panic`; an error return is `Err` with its error kind.
- Text is a sequence of Unicode scalar values. The Base58 decoder stops at the first character
  outside ASCII, so character and byte positions agree as far as it gets.
- `(t & 0x3f00000000) >> 32` is written `t / 2^32 % 64`, and shifts and masks of words as divisions and
  remainders.
- No profile in `Cargo.toml` sets overflow checks, so a debug build traps and a release build wraps.
  The merge and the websocket listener have both behaviours, chosen by a parameter `checks`. `Merge.Step`
  and `Merge.Run` say what the merge means without the checks; the laws about its result are about them.
- Double SHA-256 is any function giving 32 bytes. The curve library is a partial function on byte strings
  that returns 33-byte compressed keys and accepts those again. The URL parser is any predicate.
  Commitments are pairs of scalars modulo the group order, for two independent generators.
- The relaxed flag of the executor may be read stale until the poller synchronises with the worker, by
  the mutex or by being polled because of the notification.

## What the proofs found

- Base58 decoding gives the bytes back if and only if they are at most 132. Alphabet strings whose number
  fits but which need more than 132 bytes, counting leading ones, make the decoder panic
  (`Base58.DecodePanics`); 133 ones do (`Base58.OnesPanic`).
- Reading the hexadecimal form of the empty byte string panics (`Hex.HexRoundTrip`).
- A peer address with an empty port, or one above 65535, matches the pattern and then panics
  (`Addresses.ParsePanicsExactly`, `Addresses.PeerPanicsExample`). The constructors accept any domain; printing
  survives parsing if and only if the domain is one the pattern accepts (`Addresses.RoundTripExact`), which
  `a-b` is not (`Addresses.RoundTripExample`).
- A Grinbox address printed without its scheme is read by the general parser as an MWCMQS address, and on
  another server if no domain was written, as for the default one without a port of its own
  (`Addresses.StrippedRoundTrip`, `Addresses.StrippedExample`).
- A transaction is missing from the merge's result when some outputs are left but fewer than it needs,
  unless it is a cancelled one taken to have none, since the size test has no other branch
  (`MergeLaws.NothingOmittedIff`, `MergeLaws.DroppedExample`).
- The merge of a debug build panics exactly when a window sum it computes is beyond 64 bits, or the output
  after the window taken has a smaller derivation index than the window's last (`Merge.RunInExact`), which
  `src/wallet/api/api.rs:480` expects to occur (`MergeLaws.TrapExample`). Both builds agree on every list of
  transactions if and only if the wallet's total fits 64 bits and its outputs are in order
  (`MergeLaws.BuildsAgreeIff`).
- The cut-through pass runs forward once, so a chain of spends that goes forward by more than its last
  step is not followed (`BulkLaws.ForwardChainMissed`). `BulkLaws.ValidatedIffChain` says exactly which chains
  are; all of them are when spends point backward or to a dump hit (`BulkLaws.BackwardSpendsComplete`).
- After 2^32 unsuccessful reconnects a release build reports a drop twice
  (`ListenerLaws.UncheckedGrinboxExact`, `ListenerLaws.SecondDropExample`); a debug build panics in the first turn
  that comes 64 after the last handshake and completes none (`ListenerLaws.CheckedGrinboxPanics`,
  `ListenerLaws.PanicExample`).
- A stop during the back-off sleep is forgotten if the next attempt gets as far as making a connection and
  is not stopped itself; otherwise it is honoured (`ListenerLaws.StopWhileAsleepIsLost`,
  `ListenerLaws.SleepExample`).
- A Keybase listener that ends on its own keeps reporting itself as running, and it ends without a close
  event if and only if it meets a message that does not parse (`ListenerLaws.KeybaseEnds`,
  `ListenerLaws.KeybaseEndsExamples`).

## Model

| member | source | states |
|---|---|---|
| Base58Codec.AddByte | src/common/base58.rs:38-55 | one turn of the encoder's outer loop: if the buffer denotes the bytes read, then afterwards it denotes them and the next byte; no index or 32-bit overflow, the saturating index terminates, and cells up to the new bound stay zero until the last byte |
| Base58Codec.CarryIntoCellZero | src/common/base58.rs:32-51 | whenever a byte is added cell 0 is still zero, and a carry reaches it only with the last byte and is then a single digit, so the index that stops at 0 does no harm |
| Positional.Room | src/common/base58.rs:32 | 256^n is at most 58^e whenever 11n is at most 8e, so the buffer of 138n/100+1 cells is large enough |
| Base58Codec.ToBase58 | src/common/base58.rs:30-70 | for every byte string the in-place encoder returns one '1' per leading zero byte and then the base-58 digits of the value |
| Base58Codec.MultiplyAdd | src/common/base58.rs:105-117 | the word loop multiplies the 33-word number by 58 and adds the digit; the masked carry is zero exactly when the result stays under 2^1056 |
| Base58Codec.MultiplyTurn | src/common/base58.rs:107-112 | one word of that loop; the carry stays under 58, so the mask 0x3f loses no bit |
| Base58Codec.ReadNumber | src/common/base58.rs:90-125 | after the characters read the words denote exactly their value, and reading stops with the decoder's error |
| Base58Codec.Unpack | src/common/base58.rs:127-150 | the 132 bytes unpacked from the words denote the same number |
| Base58Codec.FromBase58 | src/common/base58.rs:81-154 | the decoder with its error cases and its panic equals the specification for every string |
| Base58Codec.CellRuns | src/common/base58.rs:6-13 | every cell of the digit table is the position of that character in the alphabet, or -1 |
| Base58Codec.CharRuns | src/common/base58.rs:4-13 | the alphabet string has 58 letters and each has its own position as digit |
| Base58Codec.AlphabetIs | src/common/base58.rs:4-13 | a character is a digit exactly if it is in the alphabet string |
| Base58.Inverse | src/common/base58.rs:30-154 | decoding a string yields given bytes if and only if the string is their encoding and they are at most 132 |
| Base58.BytesOfEncode | src/common/base58.rs:30-70 | an encoding is over the alphabet and stands for exactly the encoded bytes, whatever their length |
| Base58.EncodeBytesOf | src/common/base58.rs:30-70 | every alphabet string is the encoding of the bytes it stands for |
| Base58.EncodeInjective | src/common/base58.rs:30-70 | no two byte strings have the same encoding |
| Base58.DecodeExact | src/common/base58.rs:94-125 | the decoder fails exactly at the first character that is outside the alphabet or makes the value reach 2^1056, with the error for that character |
| Base58.CharacterErrors | src/common/base58.rs:95-103 | the decoder reports a character with its position exactly if it is the first outside the alphabet and those before it fit as a number |
| Base58.LengthErrors | src/common/base58.rs:114-122 | it reports the length exactly if some prefix is the first to reach 2^1056, and has no other errors |
| Base58.LeadByteIs | src/common/base58.rs:95-98 | the byte reported for a character outside ASCII is the first of its UTF-8 form |
| Base58.DecodePanics | src/common/base58.rs:152-153 | the final slice panics exactly on alphabet strings under 2^1056 that need more than 132 bytes |
| Base58.OnesPanic | src/common/base58.rs:81-154 | n ones decode to n zero bytes up to 132 and panic from 133 on |
| Base58.LengthBounds | src/common/base58.rs:30-70 | an encoding has at least as many letters as bytes and at most twice as many |
| Base58Check.CheckInverse | src/common/base58.rs:72-77 | a text reads as a version and data if and only if it is their checksummed form and they have between 1 and 128 bytes together |
| Base58Check.PayloadExact | src/common/base58.rs:156-171 | a text reads as a version and data exactly if it decodes to them and the first four bytes of their hash, and there is at least one byte |
| Base58Check.PrintedPayload | src/common/base58.rs:72-77 | a printed text stands for the version, the data and the first four bytes of their hash, and decodes to that exactly up to 128 bytes |
| Base58Check.CheckOutcomes | src/common/base58.rs:156-171 | the checksum error comes exactly for fewer than five bytes or a wrong checksum, the panic for fewer bytes than the version has, and decoding errors pass through |
| Base58Check.KeyText | src/common/crypto.rs:11-69 | every 33-byte key under either network version prints as exactly 52 letters, beginning with q on mainnet and x on testnet |
| Hex.PrintHex | src/common/crypto.rs:136-142 | the printing loop produces two lower-case digits per byte, the high half first |
| Hex.PrintedDigits | src/common/crypto.rs:136-142 | the printed digits are those of each byte, in lower case, the more significant first |
| Hex.HexInverse | src/common/crypto.rs:145-165 | ASCII text reads as given bytes if and only if its length is even, there is at least one byte, and after a leading 0x and between white space it writes them, two digits each, in small or capital letters, with a plus sign allowed for the first zero of a pair |
| Hex.HexOutcomes | src/common/crypto.rs:145-165 | text of even length panics exactly if nothing, or an odd number of characters, is left of it; all other failures are number parsing errors |
| Hex.HexRoundTrip | src/common/crypto.rs:136-159 | reading printed bytes gives them back, and panics for none |
| AddressGrammar.RecogniseExact | src/contacts/types.rs:13-14 | the recogniser of peer addresses accepts exactly the pattern's language, with its captures |
| AddressGrammar.KeybaseExact | src/contacts/types.rs:15 | the recogniser of Keybase addresses accepts exactly the pattern's language, with its captures |
| AddressGrammar.ClassesAre | src/contacts/types.rs:13-15 | the character classes of the patterns, written out |
| AddressGrammar.PortRoundTrip | src/contacts/types.rs:232-234 | a printed port reads back as the same number |
| Addresses.DisplayRoundTrip | src/contacts/types.rs:43-61 | printing a well-formed address of any kind and parsing it gives it back, a default port becoming absent |
| Addresses.StrippedRoundTrip | src/contacts/types.rs:43-61 | a peer address printed without its scheme is read back by its own type; the general parser always makes an MWCMQS address of it, in that type's default domain if none was written, and so gives it back if and only if it was one |
| Addresses.StrippedExample | src/contacts/types.rs:43-61 | a Grinbox address in its default domain comes back as an MWCMQS address in the other default domain |
| Addresses.StrippedOthers | src/contacts/types.rs:177-179 | a stripped Keybase address reads back without its topic, a stripped URL unchanged |
| Addresses.PrintsShortest | src/contacts/types.rs:249-262 | no text that a peer type's parser reads as the same address, up to a default port, is shorter than the stripped form |
| Addresses.SchemeExact | src/contacts/types.rs:43-61 | the type chosen is that of the scheme the text starts with, if something follows it on one line; https and http are one type |
| Addresses.PeerExact | src/contacts/types.rs:222-238 | a peer type's parser gives an address exactly if the text matches its pattern around a valid key and the captures say the address, with the type's default domain and the port's number |
| Addresses.PeerFails | src/contacts/types.rs:222-227 | it reports the text exactly if it does not match |
| Addresses.OthersExact | src/contacts/types.rs:158-170 | a Keybase address is what its pattern captures and a URL its text; texts that are neither are reported |
| Addresses.PeerRoundTrip | src/contacts/types.rs:287-327 | both printed forms of a peer address, with and without scheme, parse to the normalised address |
| Addresses.NormalisedPrintsAlike | src/contacts/types.rs:250-262 | the normalised address prints identically and is its own normal form |
| Addresses.ParsedIsWellFormed | src/contacts/types.rs:222-238 | the parser produces only addresses around a valid key with a legal domain, or legal Keybase names, or URLs |
| Addresses.ReadPrintRead | src/contacts/types.rs:129-144 | whatever text an address was read from, printing and reading it again changes nothing but a default port |
| Addresses.RoundTripExact | src/contacts/types.rs:207-214 | around a valid key the round trip holds if and only if the domain is one the pattern accepts |
| Addresses.RoundTripExample | src/contacts/types.rs:207-214 | no peer address with the domain a-b survives printing and parsing |
| Addresses.PeerPanicsExactly | src/contacts/types.rs:222-236 | a peer type's own parser panics exactly when its pattern captures a port that is empty or above 65535 |
| Addresses.ParsePanicsExactly | src/contacts/types.rs:43-61 | the general parser panics exactly when the scheme of the text, or the lack of one, selects a peer type and that type's pattern captures such a port |
| Addresses.PeerPanicsExample | src/contacts/types.rs:222-236 | any valid key text followed by a domain and a bare colon panics, in the general parser too |
| Addresses.ReadKeyText | src/common/crypto.rs:45-69 | reading the checksummed text of a valid key under the network's version gives that key |
| Addresses.ReadKeyExact | src/common/crypto.rs:56-65 | a key is read exactly from the checksummed form of its data under the network's version; another version and other data give their own errors |
| Addresses.ReadKeyReturns | src/common/crypto.rs:56-64 | reading a key of 52 letters never panics |
| Merge.SumWindow | src/wallet/api/api.rs:422-425 | the inner loop computes the window's sum modulo 2^64; with overflow checks it panics exactly when the sum is beyond 64 bits |
| Merge.TakeWindow | src/wallet/api/api.rs:428-431 | the removal loop returns the window and leaves the deque without it, in order |
| Merge.Assign | src/wallet/api/api.rs:418-448 | the search loop finds and takes the leftmost fitting window or reports failure, and sets the cancelled flag from the gap after it; with overflow checks it panics exactly when a window sum or the index difference overflows |
| Merge.CalcBestMerge | src/wallet/api/api.rs:381-452 | the loop over both deques computes the fold of the per-transaction step, emptying the transactions and leaving the outstanding outputs; with overflow checks it panics exactly when some transaction traps at its turn |
| Merge.WindowSumIs | src/wallet/api/api.rs:422-425 | a running sum that panics past 64 bits panics exactly when the whole sum is past them, and otherwise wraps to its residue |
| Merge.StepInExact | src/wallet/api/api.rs:418-448 | one transaction, searched window by window with checked sums and a checked index difference, panics exactly when it traps and otherwise has the effect it has without checks |
| Merge.RunInExact | src/wallet/api/api.rs:381-452 | a whole run with checks panics exactly when some transaction traps at its turn, and otherwise ends as the run without |
| MergeLaws.OutputsConserved | src/wallet/api/api.rs:381-452 | assigned and outstanding outputs are together the initial ones as a multiset, and the outstanding ones keep their order |
| MergeLaws.ValueBalances | src/wallet/api/api.rs:421-441 | if the total fits 64 bits it equals the credited amounts of matched transactions plus the outstanding value |
| MergeLaws.AssignmentIsLeftmostWindow | src/wallet/api/api.rs:421-443 | each non-empty assignment is the leftmost window of the outputs left at its turn with the transaction's count and amount |
| MergeLaws.FittingWindowIsTaken | src/wallet/api/api.rs:391-447 | every transaction not dropped has its entry at its place; the entry has outputs exactly when the transaction was searched for and some window then fitted, and is found without outputs exactly when outputs were left and it needed none or was a skipped cancelled one |
| MergeLaws.FailureIffNoWindow | src/wallet/api/api.rs:392-447 | every entry belongs to a transaction not dropped, and failed exactly when no output was left at its turn or it was searched for and no window fitted |
| MergeLaws.StepShape | src/wallet/api/api.rs:391-449 | a transaction adds one entry for itself unless dropped, with outputs, without or failed exactly as the outputs left decide, and the outputs change only by the leftmost window, which it took |
| MergeLaws.ResultListsKept | src/wallet/api/api.rs:391-449 | the result lists the transactions in order, omitting exactly the dropped ones |
| MergeLaws.NothingOmittedIff | src/wallet/api/api.rs:418-448 | the result lists all transactions if and only if no transaction is dropped, that is, reaches the size test with too few outputs left |
| MergeLaws.DroppedExample | src/wallet/api/api.rs:418 | a transaction asking for two outputs of a wallet with one is omitted |
| MergeLaws.CancelledTakesInSequence | src/wallet/api/api.rs:402-439 | a cancelled transaction takes outputs only right after a window whose derivation index continues without a gap, or as the first recorded one worth the first output |
| MergeLaws.TakesIff | src/wallet/api/api.rs:391-449 | a transaction takes outputs if and only if it needs some, a window left is worth its credit, and if it is cancelled either nothing was recorded and the first output is worth its credit, or the last earlier transaction that took a window, or was cancelled with nothing recorded, left the outputs continuing |
| MergeLaws.SearchedExactly | src/wallet/api/api.rs:391-414 | which transactions are searched for, over the outputs and results before them and without the flag |
| MergeLaws.OrderedNeverTraps | src/wallet/api/api.rs:421-436 | if the total fits 64 bits and the outputs are in order of derivation index, no transaction of any run traps |
| MergeLaws.BuildsAgreeIff | src/wallet/api/api.rs:381-452 | runs with and without overflow checks agree on every list of transactions if and only if the total fits 64 bits and the outputs are in order |
| MergeLaws.TrapExample | src/wallet/api/api.rs:434-436 | a transaction that takes an output followed by one with a smaller index panics the run with checks, where the run without takes the output |
| BulkValidation.Prepare | src/wallet/api/api.rs:496-570 | the loop that fills the list and the three hash indexes; the list is the prepared one and each index agrees with backward search for every key |
| BulkLaws.IndexIsLast | src/wallet/api/api.rs:551-567 | a key is mapped to an index exactly when that is the last transaction carrying it |
| BulkValidation.ScanDump | src/wallet/api/api.rs:579-611 | after a dump every transaction is marked once per line that names it |
| BulkValidation.SpendsValidated | src/wallet/api/api.rs:623-636 | the inner loop finds out whether some output names a validated send transaction |
| BulkValidation.SpendPass | src/wallet/api/api.rs:613-645 | the forward pass turns the state after the dumps into the specified report |
| BulkValidation.TxsBulkValidate | src/wallet/api/api.rs:491-645 | merge, indexes and three passes together compute the specified report of the merged transactions, or with overflow checks panic exactly when the merge does |
| BulkLaws.ReportExact | src/wallet/api/api.rs:496-645 | the report over the merged transactions: each keeps its log entry and outputs, has a K for every kernel line that is its excess or in its stored slate and no later one's, an O for every output line that is its commitment and no later one's, and otherwise an S exactly when an output of it names a send transaction validated in time |
| BulkLaws.ValidatedIffChain | src/wallet/api/api.rs:583-645 | a transaction is validated exactly when a chain of spends, to smaller indexes except for the last step, leads to one named by a dump line |
| BulkLaws.MoreLinesValidateMore | src/wallet/api/api.rs:583-645 | adding lines to the dumps never loses a validation |
| BulkLaws.ValidationIgnoresOrder | src/wallet/api/api.rs:583-645 | who is validated depends only on which lines occur |
| BulkLaws.ReportIgnoresOrder | src/wallet/api/api.rs:583-645 | the report, flags included, is the same for any order of the same lines |
| BulkLaws.FlagsTell | src/wallet/api/api.rs:587-643 | flags are K letters then O letters or a single S, non-empty exactly when validated, S exactly when no line names the transaction |
| BulkLaws.ReceivedHasNoKernelFlag | src/wallet/api/api.rs:523-537 | a received transaction never gets a K |
| BulkLaws.BackwardSpendsComplete | src/wallet/api/api.rs:613-645 | when spends point backward or to a hit, every chain of spends to a hit validates its start |
| BulkLaws.ForwardChainMissed | src/wallet/api/api.rs:616-644 | with spends pointing forward the middle of a chain is validated and its start is not |
| TxProofs.RecipientReceives | src/wallet/api/api.rs:1133-1171 | a verified proof makes the outputs not listed worth the inputs not listed plus the amount, modulo the group order |
| TxProofs.SenderPays | src/wallet/api/api.rs:1133-1187 | the listed inputs pay the listed outputs, the amount and the fee, modulo the group order |
| TxProofs.ValuesConserved | src/wallet/api/api.rs:1133-1187 | with range proofs all three equations hold exactly |
| TxProofs.AmountIsBound | src/wallet/api/api.rs:1163-1171 | no two amounts verify with the same message and lists, whatever the participants' keys |
| TxProofs.ListsAreSets | src/wallet/api/api.rs:1133-1151 | the proof's lists matter only as sets |
| TxProofs.SelectSplits | src/wallet/api/api.rs:1135-1151 | the two filters split a list without losing value or blinding |
| TxProofs.SelectExact | src/wallet/api/api.rs:1135-1151 | each filter keeps exactly the listed commitments, or exactly the others, as often as they occur and in their order |
| TxProofs.VerifiedRecord | src/wallet/api/api.rs:1189-1195 | a verified proof tells the message's destination, the proof's address and amount, the outputs not listed, as often as they occur and in order, and the transaction's excess |
| TxProofs.VerifyFails | src/wallet/api/api.rs:1115-1187 | it panics exactly without a second participant, fails with a library error exactly when an excess to compare with is the identity, and otherwise as a failed proof |
| TxProofs.OrderIs | src/wallet/api/api.rs:1169-1187 | the order of the group, as a difference from 2^256 |
| TxProofs.VerifiesIffBalanced | src/wallet/api/api.rs:1115-1196 | for keys that are multiples of G, a proof verifies if and only if values balance for the recipient and for the whole transaction, the recipient's key and the sum of the keys are the two excesses, and neither is zero |
| TxProofs.HonestVerifiesIff | src/wallet/api/api.rs:1115-1196 | with keys as two honest participants publish them, a proof verifies if and only if the recipient receives the amount, the transaction balances up to the fee, and neither blinding sum cancels out |
| Executor.InvariantKept | src/api/handlers/executor.rs:34-114 | every atomic step of worker and poller keeps the invariant on mutex, flag, task cell and delivery |
| Executor.NoLostWakeUp | src/api/handlers/executor.rs:42-80 | in every interleaving, if the last poll returned NotReady and the worker is past its notify step, a notification is pending |
| Executor.WokenPollDelivers | src/api/handlers/executor.rs:70-95 | the poll that answers the notification delivers the result, however the remaining steps interleave |
| Executor.RestIsDeliveredOrWoken | src/api/handlers/executor.rs:42-95 | when both threads rest and the future was polled, it has delivered or a notification is pending |
| Executor.NoDeadlock | src/api/handlers/executor.rs:49-95 | in every reachable state some thread can move until the worker has exited and no poll is under way, and then a poll can be made |
| Executor.RunsEnd | src/api/handlers/executor.rs:42-114 | between polls the two threads take a bounded number of steps |
| Executor.DeliveredOnce | src/api/handlers/executor.rs:44-105 | something is delivered exactly if a poll has joined the worker; it is then one pair of the request's state and what the handler returned in its only return, as the body or as a bad request with the error |
| Executor.StateTells | src/api/handlers/executor.rs:42-105 | every field of the state is a fact about the steps taken so far; a notification is pending exactly if one reached a registered task and no poll came since |
| Executor.StepsInOrder | src/api/handlers/executor.rs:42-95 | in every run the flag is stored after the handler returned, the mutex taken after that, the notification made under it, and the join made only after the worker's exit and a load of the cleared flag |
| Executor.LastPollIsAnswered | src/api/handlers/executor.rs:42-85 | over the steps of a run alone: if the last poll came back NotReady and the worker has notified, the notification reached the task and no poll has come since |
| Executor.NoPollMissesTheResult | src/api/handlers/executor.rs:70-85 | over the steps of a run alone: no poll begun after a notification that reached the task comes back NotReady |
| Executor.SlowHandlerRun | src/api/handlers/executor.rs:42-105 | the run in which the first poll comes too early is possible and delivers |
| Executor.FastHandlerRun | src/api/handlers/executor.rs:42-105 | the run in which the worker is done before the first poll is possible and delivers without a wake-up |
| Executor.StaleLoadRun | src/api/handlers/executor.rs:49-80 | a poll may read the flag as set after it was cleared |
| Executor.PanicsOnlyAfterReady | src/api/handlers/executor.rs:90-112 | the panic is reached only after a delivery, and one further poll after it always reaches it |
| Listeners.OnOpen | src/broker/grinbox.rs:289-303 | the open callback emits open once and re-established from then on, and resets the retries |
| Listeners.GrinboxBroker.Turn | src/broker/grinbox.rs:196-233 | one turn of the reconnect loop computes the specified step |
| Listeners.GrinboxBroker.Subscribe | src/broker/grinbox.rs:160-238 | the reconnect loop emits the specified trace for every script of connections and stops |
| Listeners.KeybaseSubscriber.Start | src/broker/keybase.rs:71-126 | the polling loop emits the specified trace for every script of polls and stops |
| Listeners.KeybaseSubscriber.Receive | src/broker/keybase.rs:97-108 | the message loop delivers the slates before the first that does not parse |
| ListenerLaws.CheckedGrinboxAccepted | src/broker/grinbox.rs:188-234 | with overflow checks every trace of the websocket listener is in the language |
| ListenerLaws.UncheckedGrinboxExact | src/broker/grinbox.rs:196-232 | without them, a trace, closed or not, is in the language exactly when the server was never out of reach for 2^32 consecutive turns while the listener ran |
| ListenerLaws.SecondDropExample | src/broker/grinbox.rs:225-232 | one session and 2^32 failed reconnects give an open and two drops, which is not in the language |
| ListenerLaws.CheckedGrinboxPanics | src/broker/grinbox.rs:214-232 | with them a turn panics exactly when it completes no handshake, finds a sender that no stop removed, and 64 turns or more have passed counting from the last that completed one |
| ListenerLaws.PanicExample | src/broker/grinbox.rs:229-232 | a listener that never reaches its server survives 64 turns and panics in the next |
| ListenerLaws.StopWhileAsleepIsLost | src/broker/grinbox.rs:196-246 | after a stop during the back-off sleep the next turn closes the listener exactly when it makes no connection or is stopped itself; when it makes one, the run is the same as without the stop |
| ListenerLaws.SleepExample | src/broker/grinbox.rs:196-246 | a listener stopped in its first sleep is still running after the next attempt |
| ListenerLaws.KeybaseAccepted | src/broker/keybase.rs:77-125 | every trace of the Keybase listener is in the language, even when messages do not parse |
| ListenerLaws.KeybaseEnds | src/broker/keybase.rs:77-137 | it ends without a close event exactly when it meets a message that does not parse, and otherwise with one as the last event; abnormally only when never opened; and it reports itself running unless it was stopped |
| ListenerLaws.KeybaseEndsExamples | src/broker/keybase.rs:77-125 | one message that does not parse leaves an open as the only event, a server never reached a close, and neither sets the stop signal |
| ListenerTraces.GrinboxExact | src/broker/grinbox.rs:188-303 | the websocket listener in closed form: from the script alone, what each turn emits, which is the last, and whether it returns, panics or runs on |
| ListenerTraces.KeybaseExact | src/broker/keybase.rs:77-125 | the Keybase listener in closed form: from the script alone, what each poll emits, which is the last, and whether the stop signal is set |
| ListenerLanguages.GrinboxLanguage | src/broker/grinbox.rs:188-303 | the websocket listener's traces are exactly the language |
| ListenerLanguages.KeybaseLanguage | src/broker/keybase.rs:77-125 | the Keybase listener's traces are exactly the language with abnormal closes only on their own |
| ListenerLanguages.ListenersAgree | src/broker/keybase.rs:77-125 | a trace without abnormal close is one listener's exactly when it is the other's |

## Left out

- Hex.HexInverse: does not cover text outside ASCII, because slicing and trimming there depend on UTF-8 boundaries and Unicode white space.
- TxProofs.VerifiesIffBalanced: takes keys that are multiples of G, since an arbitrary point has no known scalars, and the offset as a scalar and every single commitment as available; what the curve library does for the identity inside `commit` and `commit_value` is not part of this model.
- BulkValidation.TxsBulkValidate: starts from outputs and transactions already filtered by account; file reading, warnings and the CSV report are not modelled.
- Executor.DeliveredOnce: gives the error's own text; the JSON around it and the removal of terminal escapes are not modelled.
- Executor.NoDeadlock: assumes the handler returns and neither thread dies holding the mutex, since a poisoned mutex is not modelled.
- The inner loops of the Base58 encoder and decoder, of the merge's search and of the listeners' turns are methods of their own, called where the source nests them.
- SHA-256, secp256k1 arithmetic, range proofs, the URL parser and the regular expression engine: parameters, or recognisers with the same language.
- `src/common/message.rs`, `src/wallet/types/tx_proof.rs`: encryption, signatures and files; what a proof's message yields is a parameter.
- `src/broker/mwcmq.rs`: an HTTP long poll dominated by network calls and message scraping.
- `src/wallet/api/restore.rs` and the rest of `src/wallet/api/api.rs`: calls into the wallet library and a node.
- The command line, HTTP routing, configuration, address book storage and `filter_escape_symbols`: option parsing and calls into storage, with no guarantee that spans several functions.
