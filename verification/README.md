# Patala payment rails: a verified model

Patala moves money over interchangeable rails and promises that a receipt verifies only when the
money really moved, that a mistyped address is never accepted, and that an operator's audit trail
is what it says. This project models the code behind those promises and proves them for all inputs,
all runs and all interleavings.

| part | modules | main results |
|---|---|---|
| Solana payment path | `Base58`, `Base64`, `CompactU16`, `AccountTable`, `Message`, `SolanaCharge`, `Ledger`, `Balances`, `SolanaRail`, `SolanaVerdict`, `SolanaPayment` | `SolanaVerdict.AcceptsIff`, `SolanaVerdict.RefusesIff`, `SolanaPayment.SentPays`, `Ledger.ChargeThenVerify`, `Ledger.FundedChargeVerifies`, `Message.WireRoundTripIff`, `SolanaRail.SettlementSound`, `SolanaRail.AntiReplay`, `SolanaRail.SameTransactionIff`, `SolanaRail.ReorderingKeepsVerdict` |
| Address checks | `SolanaDestination`, `SolanaShapes`, `Base32`, `Crc16`, `StrKey`, `StellarDestination`, `StellarShapes` | `SolanaShapes.DiagnoseIff`, `StellarShapes.DiagnoseIff`, `SolanaDestination.NoShadowing`, `StellarDestination.SingleTypoRefused`, `StellarDestination.NeighbouringTypoRefused`, `StellarDestination.ChecksumBlameIsSound`, `StellarDestination.VersionBlameIff`, `StellarDestination.MuxedChecksumBlame` |
| Failover | `Failover` | `Failover.TryInOrder`, `Failover.PlanRespectsClass`, `Failover.BlockedIff` |
| Manual rail | `ManualRail` | `ManualRail.VerifiesIff`, `ManualRail.ReceiptsTrackState`, `ManualRail.PaidIsAttributed`, `ManualRail.MarkerLastsIff`, `ManualRail.MarkableIff` |
| Decimal money | `Decimal`, `Money` | `Money.MajorStringToMinorIff`, `Money.PrintScaledIff`, `Money.MoneyRoundTrip`, `Money.ParseStroops`, `Money.ParsersAgreeIff` |
| C interface | `Handles`, `Hex` | `Handles.UseAfterCloseIsRefused`, `Handles.FetchedDistinctIff`, `Hex.RefusalIsPosition` |
| Mock rail | `Fnv`, `MockRail` | `MockRail.DigestInRounds`, `MockRail.KeysSeparate`, `MockRail.OneByteTamperDetected`, `MockRail.SigningBytesEqualIff` |

`Prelude`, `Radix`, `Text`, `Rail`, `Destination` and `ChainShapes` hold shared vocabulary.

Code that the source writes as loops or as updates in place is a method or a class whose
postcondition equates its result with a function; the theorems are about that function. Decoders
that the repository does not contain (the wire decoder, the token ledger, strict base64, the StrKey
parser) are written independently from the formats' own definitions and never call the encoder they
are compared with.

Where the code and its own words disagree, the code is kept as it is and the exact condition under
which the words hold is proved:

- "Redeemable for one (payer, reference) and nothing else" (`patala-solana/src/lib.rs:651-652`) holds
  when all memos of the transaction have one text. `SolanaRail.SameTransactionIff` says exactly
  which receipts one transaction redeems, and `SolanaRail.TwoMemosRedeemTwice` is the other case.
- "Always 43 or 44 characters" (`patala-solana/src/destination.rs:169`) is false for keys with small
  leading bytes; `SolanaDestination.AddressLengthIff` says for which. The conclusion drawn from it
  is true anyway (`SolanaDestination.NoShadowing`).
- The explanation of a rejected StrKey tests its second character in upper case only, though the
  decoder accepts lower case. `StellarDestination.VersionBlameIff` says when the sentence is
  right, and `StellarDestination.VersionBlameCanBeWrong` is the other case.
- The same explanation counts four reasons for a refusal. SEP-0023 has a fifth: the one unused bit of
  a muxed address must be zero. `StellarDestination.MuxedChecksumBlame` says when its checksum
  sentence is right for such an address and `StellarDestination.MuxedBlameCanBeWrong` that it is wrong
  for every one with that bit set. This rests on the decoder following SEP-0023, whose code is not in
  the repository; for a decoder that ignores the bit, clearing it changes nothing, and the same
  lemma then makes the sentence right.
- "A typo is caught" (`patala-stellar/src/destination.rs:27-30`) holds for one character and for two
  neighbouring ones, swapped or replaced (`StellarDestination.NeighbouringTypoRefused`), and fails for
  three (`StellarDestination.ThreeNeighboursCanPass`).
- "The FIRST mark is what the audit trail reflects" (`patala-fiat/src/manual.rs:204-207`) holds
  exactly until the next effective `mark_failed` (`ManualRail.MarkerLastsIff`,
  `ManualRail.FailedThenPaidForgetsFirst`). `mark_failed` follows "the same rules" but always
  overwrites: a Failed order names its last mark (`ManualRail.FailedIsAttributed`).
- `charge` files an order under the reference as given and `mark` looks it up trimmed, so an order
  whose reference has surrounding whitespace can never be settled or looked up
  (`ManualRail.MarkableIff`, `ManualRail.RecordableIff`, `ManualRail.UnmarkableOrder`).
- "Handles are never reused" (`patala-ffi/src/lib.rs:149-151`) holds for the first 2^64 opens and
  for no more (`Handles.FetchedDistinctIff`, `Handles.WrappedHandleChangesRail`).
- The `as u8` casts keep instructions intact exactly up to 256 distinct keys
  (`Message.WireRoundTripIff`) and flags exactly up to 255 signers and 255 readonly non-signers
  (`AccountTable.HeaderBytesRecoverFlagsIff`). `Message.CrowdDecodesDifferently` and
  `AccountTable.CrowdedHeader` are instances past the bounds.
- `verify` sums balances in an i128 that wraps. A verified payment is exact if and only if nothing
  wrapped (`SolanaRail.SettlementExactIff`), which u64 token amounts guarantee
  (`SolanaRail.SettlementSound`).
- The two decimal parsers read one grammar. They differ on a lone point, in the range they accept and
  in trimming, and in nothing else (`Money.ParsersAgreeIff`, `Money.ParsersDiffer`).
- The mock rail's signed bytes determine amount, time and the concatenation of currency and
  reference, not the two apart (`MockRail.SigningBytesEqualIff`).

## Model

| member | source | states |
|---|---|---|
| Base58.DecodeEncode | patala-solana/src/tx.rs:32-45 | base58 decoding recovers every byte string, leading zero bytes included |
| Base58.EncodeDecode | patala-solana/src/tx.rs:32-45 | any text the decoder accepts is the only text of its bytes: encoding gives it back |
| Base58.EncodeInjective | patala-solana/src/tx.rs:43-45 | different byte strings never share a base58 text |
| Base58.PubKeyTextRoundTrip | patala-solana/src/tx.rs:32-45 | a printed 32-byte key parses back to itself |
| Base58.PubKeyOfIsEncode | patala-solana/src/tx.rs:32-45 | a text parses as key k if and only if it is the printed form of k |
| Base58.Alphabet | patala-solana/src/destination.rs:77-77 | the digit values are the positions in the base58 alphabet written out in the source |
| Radix.ChangeBaseRoundTrip | patala-solana/src/tx.rs:32-45 | changing between any two bases while keeping the count of leading zeros is undone by changing back |
| Radix.LittleEndianAt | patala-solana/src/tx.rs:115-117 | byte i of a little-endian number is its base-256 digit of weight 256^i |
| Base64.DecodeEncode | patala-solana/src/tx.rs:230-252 | a strict RFC 4648 section 4 decoder recovers every byte string from its printed form |
| Base64.EncodeDecode | patala-solana/src/tx.rs:230-252 | the strict decoder accepts only what the encoder prints |
| Base64.B64 | patala-solana/src/tx.rs:232-252 | the chunk loop with its shifts and padding prints exactly the specified base64 text |
| Base64.EncodeGroup | patala-solana/src/tx.rs:235-250 | selecting six bits by shifting the 24-bit group and masking gives the specified four characters, padding included |
| Base64.Alphabet | patala-solana/src/tx.rs:233-233 | the digit values are the positions in the alphabet written out in the source |
| Base64.KnownTexts | patala-solana/src/tx.rs:310-316 | the four vectors the repository names: nothing, f, fo and foo |
| CompactU16.DecodeEncode | patala-solana/src/tx.rs:139-151 | every length is read back whatever bytes follow it |
| CompactU16.PrefixFree | patala-solana/src/tx.rs:139-151 | no encoded length is a prefix of another |
| CompactU16.Push | patala-solana/src/tx.rs:139-151 | the digit loop appends exactly the encoded length and leaves what was there alone |
| CompactU16.KnownLengths | patala-solana/src/tx.rs:139-151 | the codes on either side of each additional byte, low digit first |
| Text.Utf8RoundTrip | patala-solana/src/tx.rs:131-137 | every string is recovered from its UTF-8 bytes, which memos and preimages carry |
| Text.TrimIdempotent | patala-fiat/src/manual.rs:219-221 | trimming leaves nothing to trim, with the full Unicode White_Space set |
| Text.TrimIff | patala-fiat/src/manual.rs:219-221 | a text is the trimmed form of another if and only if only White_Space was dropped from the ends and none is left there |
| Rail.ValidIff | patala-core/src/rail.rs:44-66 | a request is valid if and only if its amount is not zero and no field is blank |
| AccountTable.MergeIsMerged | patala-solana/src/tx.rs:163-181 | merging yields no key twice, exactly the requested keys, and for each key the OR of every flag asked for it |
| AccountTable.SortIsTheStableSort | patala-solana/src/tx.rs:183-190 | a sequence is the sorted table if and only if it is ordered by rank and keeps the entries of each rank in their original order |
| AccountTable.TableIsMerged | patala-solana/src/tx.rs:158-190 | the finished table is duplicate-free, holds exactly payer, accounts and programs, carries the OR of all flags, and has the payer, signing and writable, at index 0 |
| AccountTable.CountsRecoverFlags | patala-solana/src/tx.rs:183-194 | position and the three counts alone imply every key's signer and writable flag |
| AccountTable.HeaderBytesRecoverFlagsIff | patala-solana/src/tx.rs:192-201 | the one-byte counts still imply every flag if and only if signers and readonly non-signers each number at most 255 |
| AccountTable.CrowdedHeader | patala-solana/src/tx.rs:192-201 | 257 signers, or 257 readonly non-signers, in one instruction give a header whose bytes no longer imply the flags |
| Message.CollectKeys | patala-solana/src/tx.rs:163-181 | the two loops that find an entry and OR into it, or push a new one, compute the merge of all requests |
| Message.SerializeMessage | patala-solana/src/tx.rs:158-218 | the pushes produce exactly the message layout that the independent decoder is proved to read |
| Message.PushInstruction | patala-solana/src/tx.rs:208-216 | one pass of the instruction loop appends program index, account indices and data with their lengths |
| Message.PushKeys | patala-solana/src/tx.rs:203-205 | the key loop appends every 32-byte key in table order |
| Message.PushInstructions | patala-solana/src/tx.rs:208-216 | the outer loop appends every instruction in order |
| Message.WireTransaction | patala-solana/src/tx.rs:222-228 | the wire form is a count of one, the signature and the message |
| Message.WirePositions | patala-solana/src/tx.rs:222-228 | the byte one, then the 64 signature bytes, then the message |
| Message.MessagePositions | patala-solana/src/tx.rs:192-207 | with fewer than 128 keys and instructions, where each part lies: three header bytes that decide every signer and writable flag, the number of keys, the keys, the blockhash, the number of instructions, the instructions |
| Message.InstructionPositions | patala-solana/src/tx.rs:208-216 | with fewer than 128 accounts and data bytes, where each part of an instruction lies: a position holding its program key, the accounts as positions holding their keys, and the data, each after its length |
| Message.ParseMessageOfBytes | patala-solana/src/tx.rs:198-217 | an independent parser reads back header, keys, blockhash and every compiled instruction with nothing left over, for any number of each |
| Message.TableCovers | patala-solana/src/tx.rs:196-196 | the unwrap in index_of never fails: every key an instruction names is in the table |
| Message.OversizedTableMisresolves | patala-solana/src/tx.rs:196-196 | with more than 256 distinct keys the decoded instructions are never those that were encoded |
| Message.WireRoundTripIff | patala-solana/src/tx.rs:158-252 | from the base64 text the decoder always recovers signature, message, key table and blockhash, and it recovers every instruction in order with the same program, accounts and data if and only if there are at most 256 distinct keys |
| Message.CrowdDecodesDifferently | patala-solana/src/tx.rs:158-252 | one instruction with 257 distinct accounts is encoded and decodes to a different instruction |
| SolanaCharge.FindProgramAddress | patala-solana/src/tx.rs:63-79 | the descending bump loop returns the candidate of the highest bump that is off the curve, or fails if there is none |
| SolanaCharge.DerivedIsHighestOffCurve | patala-solana/src/tx.rs:63-79 | a derived address is off the curve, every higher bump was on it, and derivation fails only if all 256 are |
| SolanaCharge.Charge | patala-solana/src/lib.rs:489-564 | charge answers and sends what ChargeOutcome says, step by step in source order; what that outcome is in the fields of the request is SolanaPayment.ChargeAnswers, SentPays and ReceiptFields |
| SolanaCharge.ReceiptIsCoherent | patala-solana/src/lib.rs:536-564 | the receipt of a charge passes every check verify makes before asking the chain |
| SolanaPayment.TokenAccountIff | patala-solana/src/tx.rs:63-87 | an account is the derived token account of an owner and a mint if and only if it is SHA-256 of owner, token program, mint, bump, associated-token program and tag at the highest bump that is off the curve; there is none if and only if all 256 are on it |
| SolanaPayment.ChargeAnswers | patala-solana/src/lib.rs:489-543 | each refusal of charge, and success, if and only if its condition on request, signer, destination, blockhash, token accounts and submission; exactly one text is sent, or none |
| SolanaPayment.SentPays | patala-solana/src/lib.rs:505-543 | what an accepted charge sends decodes to a signature by the signer over the decoded message, on the blockhash the chain answered, with the binding memo and then a checked transfer of the amount at 6 decimals from the payer's derived token account to the destination's |
| SolanaPayment.ReceiptFields | patala-solana/src/lib.rs:545-563 | the receipt restates amount, currency and reference, names mint, payer, destination and binding, and carries the transaction signature that send_transaction answered |
| Ledger.ChargeDecodes | patala-solana/src/lib.rs:521-543 | what charge sends decodes to its two instructions with the accounts, flags and data it meant, signed by the payer alone over the decoded message and on the blockhash given |
| Ledger.DecodedChargeTransfers | patala-solana/src/tx.rs:106-137 | executing the decoded instructions is exactly one checked transfer of the amount between the two token accounts, and nothing else |
| Ledger.ChargeExecutesIff | patala-solana/src/lib.rs:489-534 | on any ledger the submitted text executes if and only if the token program allows the transfer it spells out |
| Ledger.NetOfReports | patala-solana/src/lib.rs:414-447 | the balances a ledger reports before and after a transfer differ, owner by owner, by exactly the amount moved |
| Ledger.ReportsSettleIff | patala-solana/src/lib.rs:414-447 | the reported balances settle the payment if and only if the token account paid into belongs to the destination and the destination is not the payer |
| Ledger.ReportShowsPayerAndMemo | patala-solana/src/lib.rs:624-656 | the report of an executed charge lists the payer as a signer and carries the binding memo |
| Ledger.ChargeThenVerify | patala-solana/src/lib.rs:489-688 | end to end: whenever a ledger decodes, executes and reports what charge sent, verify of the returned receipt is Ok, and true if and only if the token account paid into belongs to the destination and the destination is not the payer |
| Ledger.FundedChargeVerifies | patala-solana/src/lib.rs:489-688 | every accepted charge between two token accounts executes on a ledger that holds just enough, and its receipt then verifies |
| Balances.ApplyBalances | patala-solana/src/lib.rs:419-440 | one pass over a balance list updates the accumulator as specified and stops at the first bad entry |
| Balances.ComputeMintDeltas | patala-solana/src/lib.rs:414-447 | the two passes over pre and post balances compute the deltas of the specification |
| Balances.MintDeltasAreNet | patala-solana/src/lib.rs:414-447 | deltas exist if and only if both lists are well formed; each owner appears once with the exact change of that owner's total modulo 2^128 |
| Balances.MoneyMatchesIffSettles | patala-solana/src/lib.rs:658-686 | the three checks hold if and only if the payer's total falls by the amount, the destination's rises by it and no other total moves |
| Balances.SameNetsSameVerdict | patala-solana/src/lib.rs:658-686 | the checks see the entries only through each owner's net change |
| Balances.TotalOfPermutation | patala-solana/src/lib.rs:414-447 | totals do not depend on the order of entries |
| Balances.TotalOfSplit | patala-solana/src/lib.rs:414-447 | totals do not depend on whether an owner's balance is one entry or two |
| Balances.SettledIsConserved | patala-solana/src/lib.rs:664-686 | accepted deltas conserve the mint modulo 2^128 |
| Balances.SettlesExactly | patala-solana/src/lib.rs:664-686 | for u64 amounts acceptance means exact integer totals: payer down, destination up, others still, sum conserved, payer not destination |
| Balances.TwoOwnersMove | patala-solana/src/lib.rs:414-447 | if only two owners' totals change, the grand total of the mint changes by what they change together |
| Balances.ShareIff | patala-solana/src/lib.rs:419-440 | an entry adds to an owner's total the amount it spells if it is of the mint and names that owner, and nothing otherwise |
| Balances.DeltasFaultIff | patala-solana/src/lib.rs:419-440 | mint_deltas fails with a fault if and only if the first entry of the mint that cannot be read, those before the payment first, has that fault: no owner, no amount, or an amount that spells no i128 |
| SolanaRail.PreimageInjective | patala-solana/src/lib.rs:259-287 | payer and reference are both recoverable from the length-prefixed bytes that are hashed |
| SolanaRail.MemoInjective | patala-solana/src/lib.rs:289-294 | without a hash collision on the two preimages, equal memo texts mean equal payer and reference |
| SolanaRail.VerifyIff | patala-solana/src/lib.rs:566-688 | Ok(true) if and only if the chain knows the transaction and the receipt is coherent, the transaction succeeded at an adequate status, the payer signed, the memo is present, and the totals settle; each of these in the fields of the report is SolanaVerdict.AcceptsIff |
| SolanaVerdict.AcceptsIff | patala-solana/src/lib.rs:566-688 | Ok(true) if and only if the receipt names its payer and binding for this mint, and a transaction the chain knows has a null error, no status or a firm enough one, an account-key entry with the payer's text marked signer, a top-level or inner memo with the binding text, and readable balances in which payer and destination move by the amount and nobody else moves, modulo 2^128 |
| SolanaVerdict.RefusesIff | patala-solana/src/lib.rs:604-658 | an error if and only if the receipt names its payer and either the chain is unreachable, or the transaction passes every earlier check and its first unreadable balance entry has the fault reported |
| SolanaVerdict.PayerSigned | patala-solana/src/lib.rs:630-648 | an accepted transaction lists an account key with the payer's text and the signer mark set |
| SolanaRail.SettlementSound | patala-solana/src/lib.rs:658-686 | a verified positive payment moved exactly the amount from payer to destination, left every other owner alone, conserved the mint, and payer is not destination |
| SolanaRail.SettlementExactIff | patala-solana/src/lib.rs:658-686 | for arbitrary i128 amounts a verified positive payment moved exactly the amount and conserved the mint if and only if no owner's change leaves the i128 range |
| SolanaRail.FullTurnStillVerifies | patala-solana/src/lib.rs:414-447 | three reported entries that give a third party 2^128 units leave the verdict true, so the range condition is needed |
| SolanaRail.SelfPaymentNeverVerifies | patala-solana/src/lib.rs:664-680 | a positive payment to oneself is never verified, whatever the chain reports |
| SolanaRail.VerdictDependsOnNets | patala-solana/src/lib.rs:566-688 | well-formed balance reports with the same net change of every owner get the same verdict |
| SolanaRail.ReorderingKeepsVerdict | patala-solana/src/lib.rs:566-688 | reordering the reported balance entries, well formed or not, never changes the verdict or whether there is one |
| SolanaRail.SplittingKeepsVerdict | patala-solana/src/lib.rs:566-688 | nor does reporting an entry as two of the same owner and sum, on either side |
| SolanaRail.AntiReplay | patala-solana/src/lib.rs:566-688 | two positive receipts verified by one single-memo transaction agree on payer, reference, amount and destination |
| SolanaRail.SameTransactionIff | patala-solana/src/lib.rs:566-688 | given one positive receipt verified by a transaction, another coherent receipt is verified by it if and only if payer, amount and destination are the same and the transaction carries its memo |
| SolanaRail.RedeemableIff | patala-solana/src/lib.rs:650-656 | a verified payment is redeemable for another reference if and only if the transaction also carries that reference's memo |
| SolanaRail.TwoMemosRedeemTwice | patala-solana/src/lib.rs:390-412 | adding a second binding memo to a verified transaction makes both references verify |
| SolanaDestination.AddressAtMost44 | patala-solana/src/destination.rs:168-171 | no 32-byte key prints longer than 44 characters |
| SolanaDestination.AddressLengthIff | patala-solana/src/destination.rs:168-171 | a key prints as 43 or 44 characters if and only if its number is at least 58^42 shifted by its leading zero bytes |
| SolanaDestination.SystemProgramIsShort | patala-solana/src/destination.rs:168-171 | the all-zero account id prints as 32 characters |
| SolanaDestination.NoForeignShape | patala-solana/src/destination.rs:171-248 | no foreign-chain guard claims the printed form of any 32-byte key; which texts the guards do claim is SolanaShapes.ForeignIff |
| SolanaDestination.NoShadowing | patala-solana/src/destination.rs:307-429 | every printed key is StructurallyValid if on the curve and unlisted, NotAWallet otherwise, never WrongNetwork or Malformed |
| SolanaDestination.StructurallyValidIff | patala-solana/src/destination.rs:307-429 | a text is StructurallyValid if and only if it prints an unlisted on-curve key |
| SolanaShapes.ForeignIff | patala-solana/src/destination.rs:171-248 | a text is taken for an address of a given chain, or for a Stellar seed, if and only if it has that shape: prefix or first letter, alphabet, length and, for legacy Bitcoin, 25 decoded bytes |
| SolanaShapes.DiagnoseIff | patala-solana/src/destination.rs:307-429 | every cause, for every text, is given if and only if the text warrants it, with the precedence of the guards: blank, whitespace, listed, seed, each foreign shape, first bad character, size, curve, wallet |
| SolanaShapes.WrongNetworkIff | patala-solana/src/destination.rs:339-362 | the verdict is WrongNetwork if and only if the text has one of the foreign shapes and is not a listed account |
| SolanaShapes.NotAWalletIff | patala-solana/src/destination.rs:328-415 | the verdict is NotAWallet if and only if the text is a listed account or prints a key off the curve |
| SolanaShapes.SeedIsDisclosed | patala-solana/src/destination.rs:339-346 | a text is reported as a leaked Stellar seed if and only if it is 56 characters of upper-case base32 that start with S |
| Base32.DecodeEncode | patala-stellar/src/destination.rs:101-115 | base32 decoding recovers any whole groups of five bytes |
| Base32.EncodeDecode | patala-stellar/src/destination.rs:101-115 | text of whole groups survives decoding and encoding up to letter case |
| Base32.ChangeIsLocal | patala-stellar/src/destination.rs:20-30 | changing characters within a run of any length changes the decoded bytes, and only bytes that hold a bit of the run |
| Base32.Alphabet | patala-stellar/src/destination.rs:101-115 | the five-bit values are the positions in the alphabet of RFC 4648 section 6 |
| Crc16.TailInjective | patala-stellar/src/destination.rs:20-30 | checksums that agree after a common tail agreed before it |
| Crc16.PairChangeDetected | patala-stellar/src/destination.rs:20-30 | no change confined to two adjacent bytes of the data preserves CRC16-XMODEM, wherever it lies |
| Crc16.StraddleChangeDetected | patala-stellar/src/destination.rs:20-30 | no change of one byte, the last bit before it and the first bit after it preserves the CRC |
| Crc16.LateSeparates | patala-stellar/src/destination.rs:20-30 | nor does such a change at the very end of the data together with the first bit of the stored checksum |
| Crc16.NibbleSeparates | patala-stellar/src/destination.rs:20-30 | nor does a change of the last four bits of the data together with any bits of the stored low byte |
| Crc16.CheckValue | patala-stellar/src/destination.rs:20-30 | the published check value of CRC16-XMODEM, 31C3 for the digits 1 to 9 |
| StrKey.ParseEncodeAccount | patala-stellar/src/destination.rs:348-371 | every key's printed account address parses back to that key |
| StrKey.ParseAccountIff | patala-stellar/src/destination.rs:348-371 | a text parses as the account of a key if and only if it is that key's address in some letter case |
| StrKey.ParseKeyIff | patala-stellar/src/destination.rs:300-399 | a text parses as any of the five 32-byte kinds with a payload if and only if it is the StrKey of that version byte and payload in some letter case |
| StrKey.ParseEncodeMuxed | patala-stellar/src/destination.rs:362-375 | every muxed account's printed address parses back to its payload |
| StrKey.NeighbouringTypoDetected | patala-stellar/src/destination.rs:27-30 | two 56-character texts that differ only in two neighbouring characters, and there by more than letter case, never both carry their checksum, also where a character straddles payload and checksum |
| StrKey.NeighbouringTypoNeverAccount | patala-stellar/src/destination.rs:27-30 | replacing two neighbouring characters, one of them by more than its case variant, never gives another account address |
| StrKey.SingleTypoNeverAccount | patala-stellar/src/destination.rs:27-30 | one wrong character never turns an account address into another account address |
| StrKey.ThreeCharactersCanEscape | patala-stellar/src/destination.rs:27-30 | every account address has another one, for another key, that differs from it in exactly three adjacent characters |
| StellarDestination.NoForeignShape | patala-stellar/src/destination.rs:131-172 | no foreign-chain guard claims a text that parses as a StrKey |
| StellarDestination.StructurallyValidIff | patala-stellar/src/destination.rs:274-399 | a text is StructurallyValid if and only if it is, in some letter case, the address of a curve point |
| StellarShapes.ForeignIff | patala-stellar/src/destination.rs:131-172 | a text is taken for an address of a given chain if and only if it has that shape, and then it has no surrounding whitespace and is not a seed |
| StellarShapes.ExplainIff | patala-stellar/src/destination.rs:204-242 | each explanation of a refused text is given if and only if its condition holds: the first character outside the alphabet, the length, the second character |
| StellarShapes.DiagnoseIff | patala-stellar/src/destination.rs:274-399 | every cause, for every text, is given if and only if the text warrants it, the explanation of a refused StrKey included |
| StellarShapes.WrongNetworkIff | patala-stellar/src/destination.rs:300-314 | the verdict is WrongNetwork if and only if the text has one of the foreign shapes |
| StellarDestination.SingleTypoRefused | patala-stellar/src/destination.rs:274-399 | replacing one character of an accepted address by anything but its case variant always gives a refusal |
| StellarDestination.NeighbouringTypoRefused | patala-stellar/src/destination.rs:274-399 | replacing two neighbouring characters of an accepted address, one of them by more than its case variant, always gives a refusal |
| StellarDestination.SwapRefused | patala-stellar/src/destination.rs:274-399 | swapping two different neighbouring characters of an accepted address always gives a refusal |
| StellarDestination.ThreeNeighboursCanPass | patala-stellar/src/destination.rs:274-399 | for three neighbours this fails: every accepted address has a variant different in characters 50 to 52 that is accepted if and only if its key is a curve point |
| StellarDestination.DisclosedIff | patala-stellar/src/destination.rs:293-298 | a text is reported as a leaked seed if and only if it is 56 base32 characters starting with S in some case, whatever its checksum, so the later seed arm is unreachable |
| StellarDestination.SecondCharacterPinsVersion | patala-stellar/src/destination.rs:200-203 | after G, C, T, X or M the version byte is known if and only if the second character is A to D in some letter case, and then it is the one of that letter |
| StellarDestination.ChecksumBlameIsSound | patala-stellar/src/destination.rs:192-242 | when a G, C, T or X text is told its checksum failed, its alphabet, length and version byte are right and the CRC really differs |
| StellarDestination.MuxedChecksumBlame | patala-stellar/src/destination.rs:192-242 | when a 69-character muxed text is told its checksum failed, the checksum is wrong if and only if clearing the one bit no byte uses would still leave the text refused |
| StellarDestination.MuxedBlameCanBeWrong | patala-stellar/src/destination.rs:192-242 | for every muxed address, the text with that bit set has a right checksum and is told its checksum failed |
| StellarDestination.VersionBlameIff | patala-stellar/src/destination.rs:226-241 | when the version byte is blamed it is really unknown if and only if the second character is not a lowercase a to d |
| StellarDestination.LowercaseSecondIsBlamed | patala-stellar/src/destination.rs:226-241 | every 56-character base32 text that starts with G and a lowercase a to d and has a wrong checksum is blamed on its version byte, which is a known one |
| StellarDestination.VersionBlameCanBeWrong | patala-stellar/src/destination.rs:226-241 | a concrete text with a known version byte and a wrong checksum is blamed on its version byte |
| Failover.MakePlan | patala-core/src/failover.rs:96-132 | the planning loop computes the loop-free plan for any policy output, with out-of-range and repeated indices |
| Failover.PlanRespectsClass | patala-core/src/failover.rs:96-132 | the plan names exactly the eligible rails, those the policy named that exist and, without opt-in, have the class of the first of them, each as often as the policy did, starting with that first one |
| Failover.PlanKeepsOrder | patala-core/src/failover.rs:96-132 | the plan is found in increasing positions in what the policy returned, so it keeps the policy's order |
| Failover.PlanStep | patala-core/src/failover.rs:102-126 | one more index from the policy appends that rail to the plan if it is eligible, records a class boundary if it is the first that is not, and changes nothing else |
| Failover.BlockedIff | patala-core/src/failover.rs:112-131 | a class boundary is recorded if and only if, without opt-in, two in-range candidates differ in class, and it then starts at the class of the first |
| Failover.TryInOrder | patala-core/src/failover.rs:134-167 | the rails tried are a prefix of the plan, all but the last failed, a success is the last attempt and nothing follows it; on failure all were tried and the error is the class boundary, else the last error, else AllRailsFailed |
| Failover.Verify | patala-core/src/failover.rs:174-181 | verify asks the first wrapped rail with the receipt's id and answers false if there is none |
| Failover.DispatchIff | patala-core/src/failover.rs:174-181 | a receipt returns to its issuer if and only if no earlier wrapped rail has the same id |
| ManualRail.ManualRail.constructor | patala-fiat/src/manual.rs:181-199 | a new rail knows no order |
| ManualRail.ManualRail.Charge | patala-fiat/src/manual.rs:313-371 | charge changes the record map and answers as the transition function says, branch by branch |
| ManualRail.ManualRail.Mark | patala-fiat/src/manual.rs:219-246 | mark changes the record map and answers as the transition function says, branch by branch |
| ManualRail.ManualRail.MarkPaid | patala-fiat/src/manual.rs:208-210 | mark_paid is the Paid transition |
| ManualRail.ManualRail.MarkFailed | patala-fiat/src/manual.rs:215-217 | mark_failed is the Failed transition |
| ManualRail.RecordFinds | patala-fiat/src/manual.rs:250-257 | over any run, record answers only with an order filed under the trimmed reference it was asked for |
| ManualRail.RecordableIff | patala-fiat/src/manual.rs:250-257 | after any run an order can be looked up by some text if and only if its reference has no surrounding whitespace |
| ManualRail.ManualRail.Verify | patala-fiat/src/manual.rs:373-402 | verify is true if and only if the receipt is this rail's, its order is Paid, the currency agrees and the amount is covered; in terms of the events of a run this is ManualRail.VerifiesIff |
| ManualRail.RunIsSound | patala-fiat/src/manual.rs:219-371 | after any run every record is filed under its own reference for a positive amount, is Pending exactly while its marker is empty, and is unmarked if its reference has surrounding whitespace |
| ManualRail.OrdersAreFixed | patala-fiat/src/manual.rs:313-371 | reference, amount, currency, instructions and creation time never change after the first charge, and a marked order never returns to Pending |
| ManualRail.ReceiptsTrackState | patala-fiat/src/manual.rs:313-402 | every receipt charge ever returned verifies at the end of any run if and only if its order is then Paid |
| ManualRail.VerifiesIff | patala-fiat/src/manual.rs:219-402 | over any run, any receipt, issued or not, verifies if and only if its rail is manual, an earlier charge filed its reference and the order was effectively marked paid since and not failed after that, it claims at most what that charge asked, and it names that charge's normalized currency in some ASCII case |
| ManualRail.FiledIff | patala-fiat/src/manual.rs:313-371 | an order exists after a run if and only if some step filed it; that step is unique and the record has its terms |
| ManualRail.PaidIff | patala-fiat/src/manual.rs:219-246 | an order is Paid after a run if and only if an effective paid mark followed its filing and no effective failed mark followed that |
| ManualRail.NewOrderIff | patala-fiat/src/manual.rs:313-371 | a new reference is filed if and only if its request is valid, its currency known and its instructions not blank; record and zero-amount receipt are given field by field |
| ManualRail.ChargeRefusals | patala-fiat/src/manual.rs:313-371 | each refusal of charge if and only if its condition holds |
| ManualRail.MarkAnswers | patala-fiat/src/manual.rs:219-246 | each refusal of mark if and only if its condition holds, and on success exactly one record changes, to the given status, operator and time, unless it was already Paid |
| ManualRail.RetryRepeatsFirst | patala-fiat/src/manual.rs:320-341 | after the first charge of a reference any valid retry changes nothing and is answered with the first terms and instructions, claiming the first amount once Paid and zero before |
| ManualRail.PaidIsAttributed | patala-fiat/src/manual.rs:219-246 | a Paid order names the operator and time of the step that made it Paid, and has been Paid with them ever since |
| ManualRail.MarkerLastsIff | patala-fiat/src/manual.rs:204-246 | from the mark that made an order Paid, the record names that operator and time after every step exactly until the next effective mark_failed |
| ManualRail.FailedIsAttributed | patala-fiat/src/manual.rs:212-246 | a Failed order names the operator and time of the last effective mark it received |
| ManualRail.RemarkKeepsMarkerIff | patala-fiat/src/manual.rs:204-207 | marking paid keeps marker and time if and only if the order is Paid at that moment or the mark repeats them |
| ManualRail.FailedThenPaidForgetsFirst | patala-fiat/src/manual.rs:204-246 | paid, failed, paid again: the record names the last operator, not the first |
| ManualRail.RefailReplacesMarker | patala-fiat/src/manual.rs:212-246 | marking failed twice replaces the marker |
| ManualRail.MarkableIff | patala-fiat/src/manual.rs:219-231 | a reachable unpaid order can be marked paid if and only if its reference has no surrounding whitespace |
| ManualRail.UnmarkableOrder | patala-fiat/src/manual.rs:219-231 | an order begun with a space before its reference is still Pending, and not to be looked up, after any further run |
| Decimal.DenotesIsFunctional | patala-fiat/src/currency.rs:310-373 | a decimal text denotes at most one scaled value |
| Decimal.PrintParseI128 | patala-solana/src/lib.rs:414-447 | a printed number in range parses back as an i128 |
| Decimal.ParseI128Iff | patala-solana/src/lib.rs:427-433 | a text parses as an i128 if and only if it is digits, at least one, after at most one sign, and the number is in range |
| Money.ParseScaledIff | patala-fiat/src/currency.rs:310-373 | the arithmetic of the currency parser accepts exactly the decimal grammar with a u64 value, and returns that value |
| Money.NormalizeIff | patala-fiat/src/currency.rs:244-278 | a currency text is normalized to a code if and only if the code is three capital letters, is in the table and is the trimmed text in some letter case; it is an unknown currency if and only if such a code is not in the table |
| Money.MajorStringToMinorIff | patala-fiat/src/currency.rs:310-373 | a text is accepted with value v if and only if the currency is known and the trimmed text is a non-negative decimal of at most exponent fraction digits denoting v, a u64 |
| Money.PrintScaledDenotes | patala-fiat/src/currency.rs:294-308 | a printed amount denotes that amount and needs no trimming |
| Decimal.CanonicalIsPrinted | patala-fiat/src/currency.rs:294-308 | a numeral without superfluous leading zeros is the printed form of its value |
| Money.PrintScaledIff | patala-fiat/src/currency.rs:294-308 | the printed amount is the one text that denotes it with no superfluous leading zero and exactly exponent fraction digits |
| Money.MoneyRoundTrip | patala-fiat/src/currency.rs:294-373 | every u64 amount of every table currency is recovered from its printed form |
| Money.ParseStroops | patala-stellar/src/rpc.rs:106-141 | a text is accepted with value v if and only if it is a decimal of at most seven fraction digits other than a lone point, denoting v at most i64::MAX |
| Money.ScaleFraction | patala-stellar/src/rpc.rs:127-134 | the scaling loop brings the fraction to exactly seven digits |
| Money.OverflowIsOutOfRange | patala-stellar/src/rpc.rs:119-141 | an i128 overflow of any step, reading a side, scaling the fraction or the whole part, or adding, means the text denotes more than i64::MAX |
| Money.LonePointIsZero | patala-fiat/src/currency.rs:310-373 | the currency parser reads a lone point as zero |
| Money.StroopsAreScaledIff | patala-stellar/src/rpc.rs:106-141 | on a non-empty text the stroop parser accepts v if and only if the currency arithmetic does at exponent seven, the text is not a lone point and v fits an i64 |
| Money.ParsersAgreeIff | patala-stellar/src/rpc.rs:106-141 | for every text the stroop parser accepts v if and only if the currency parser does at exponent seven, there is nothing to trim, it is not a lone point and v fits an i64 |
| Money.ParsersDiffer | patala-fiat/src/currency.rs:310-373 | each difference occurs: a lone point, an amount just above i64::MAX, and a leading space are accepted by the currency parser only |
| Handles.Registry.constructor | patala-ffi/src/lib.rs:152-157 | the registry starts empty with the counter at one |
| Handles.Registry.FetchAdd | patala-ffi/src/lib.rs:194-194 | the counter step returns the old counter, advances it modulo 2^64 and touches no entry |
| Handles.Registry.InsertAt | patala-ffi/src/lib.rs:195-198 | the insertion step maps the fetched handle to the rail and leaves the counter alone |
| Handles.Registry.Open | patala-ffi/src/lib.rs:174-200 | a configuration that cannot be built uses up no handle; otherwise the two steps run and the fetched handle is returned |
| Handles.Registry.CloseHandle | patala-ffi/src/lib.rs:208-213 | close removes exactly that entry and is a no-op on an unknown handle |
| Handles.Registry.Find | patala-ffi/src/lib.rs:159-168 | a handle is found if and only if it is live, and gives the very rail that fetched it |
| Handles.RunKeepsGood | patala-ffi/src/lib.rs:152-213 | over every interleaving of counter steps, insertions, closes, lookups and lock steps: rails are inserted once, live entries map a handle to the rail that fetched it, and at most one call runs on a rail |
| Handles.LiveBelowCounter | patala-ffi/src/lib.rs:147-157 | with fewer than 2^64-1 opens the counter is one more than the opens, every live handle lies strictly between zero and it, and no handle was inserted twice |
| Handles.FetchedDistinctIff | patala-ffi/src/lib.rs:149-157 | the handles fetched in any run are pairwise different if and only if there were at most 2^64 opens |
| Handles.UseAfterCloseIsRefused | patala-ffi/src/lib.rs:147-168 | a returned handle, once closed, is refused by every later lookup however the run continues, up to 2^64 opens |
| Handles.WrappedHandleChangesRail | patala-ffi/src/lib.rs:149-157 | after 2^64+1 opens handle 1 leads to a different rail than it did |
| Handles.CallFinishesOnItsRail | patala-ffi/src/lib.rs:133-168 | a call that found its handle stays on the rail that fetched it whatever is closed or opened afterwards, and calls on one rail are serialised |
| Handles.RegistryInvisibleToCalls | patala-ffi/src/lib.rs:133-213 | erasing every open and close step from the rest of a run leaves every call already looked up in the same place |
| Handles.WaitingCallCanRun | patala-ffi/src/lib.rs:133-142 | a waiting call can take its rail at once, or right after the call inside finishes |
| Hex.RefusalIsPosition | patala-ffi/src/lib.rs:601-629 | decoding fails if and only if the length is odd or a non-hex byte occurs, and the error is a function of the length or of the first such index |
| Hex.RefusalHidesContent | patala-ffi/src/lib.rs:595-629 | two refused inputs of one length with the same first bad index give the same error |
| Hex.DecodePrint | patala-ffi/src/lib.rs:601-629 | decoding inverts hex printing of every byte string, with the letter case free digit by digit |
| Hex.EncodeInjective | patala-solana/src/lib.rs:289-294 | hex printing is injective |
| Hex.PrintedDigits | patala-solana/src/lib.rs:289-294 | every byte is printed as two lower-case digits, the high one first |
| Fnv.MulPrimeInverse | patala-core/src/mock.rs:37-43 | multiplication by the FNV prime modulo 2^64 is undone by a fixed inverse |
| Fnv.StepInjectiveInState | patala-core/src/mock.rs:37-43 | a round step is injective in the state |
| Fnv.StepInjectiveInByte | patala-core/src/mock.rs:37-43 | a round step is injective in the byte |
| Fnv.OneByteChangesFold | patala-core/src/mock.rs:35-45 | changing exactly one byte of the input always changes the 64-bit result |
| Fnv.Round | patala-core/src/mock.rs:35-45 | the byte loop over key and message computes the specified fold; key, order, salt and constants of that fold are pinned by the rows below |
| Fnv.StartStates | patala-core/src/mock.rs:35-37 | the four rounds start from the offset basis with 0, 1, 2 and 3 xored in |
| Fnv.KeyThenMessage | patala-core/src/mock.rs:38-40 | a round folds the key first and the message from where the key ended |
| Fnv.KeyByteChangesRound | patala-core/src/mock.rs:35-45 | changing exactly one byte of the key always changes the round |
| Fnv.SaltsSeparate | patala-core/src/mock.rs:35-45 | two different rounds of one key and message never agree |
| Fnv.PublishedValues | patala-core/src/mock.rs:35-45 | the published FNV-1a values of a and of ab, the second with a as key and b as message |
| MockRail.KeyedDigest | patala-core/src/mock.rs:34-51 | filling the buffer chunk by chunk yields the four salted little-endian rounds over key and message |
| MockRail.DigestInRounds | patala-core/src/mock.rs:34-51 | chunk n is the fold of key and then message from the offset basis with n xored in, low byte first |
| MockRail.KeysSeparate | patala-core/src/mock.rs:34-51 | two keys that differ in one byte give digests that differ in every one of the four chunks, for every message |
| MockRail.ChunksDiffer | patala-core/src/mock.rs:34-51 | the four chunks of one digest are pairwise different |
| MockRail.IdsSeparateKeys | patala-core/src/mock.rs:82-87 | rails whose ids differ in one byte have different keys |
| MockRail.DigestSeparates | patala-core/src/mock.rs:34-51 | two messages that differ in one byte differ in every one of the four chunks |
| MockRail.ChargeVerifies | patala-core/src/mock.rs:176-242 | a charged receipt verifies, on any mock rail built with the same id |
| MockRail.VerifyInFields | patala-core/src/mock.rs:203-214 | verify holds if and only if the receipt names this rail and its proof is the digest of id, amount, currency, reference and time under the first half of the digest of the id |
| MockRail.ChargeInFields | patala-core/src/mock.rs:176-200 | each refusal of charge if and only if its condition holds; on success the receipt restates the request and verifies |
| MockRail.OneByteTamperDetected | patala-core/src/mock.rs:176-242 | a receipt whose signed bytes differ from a genuine one in exactly one byte, under the genuine proof, never verifies |
| MockRail.ReferenceTypoDetected | patala-core/src/mock.rs:176-242 | replacing one ASCII character of the reference is always detected |
| MockRail.SigningBytesEqualIff | patala-core/src/mock.rs:55-63 | two receipts have the same signed bytes if and only if amount, time and the concatenation of currency and reference agree |
| MockRail.BoundaryShiftUndetected | patala-core/src/mock.rs:55-63 | moving characters across the boundary between currency and reference is not detected |
| MockRail.UsdcPassesAsUsd | patala-core/src/mock.rs:55-63 | a concrete pair of currency and reference values that verify under one proof |

## Left out

- Network clients, RPC and HTTP answers, the sidecar, environment loading and clocks: their answers and times are parameters.
- JSON parsing: transactions, receipts and balance entries are datatypes whose optional fields stand for absent or ill-typed JSON.
- SHA-256, blake3, Ed25519 signing and the curve test: uninterpreted functions. Blake3 is taken not to collide on the two preimages at hand, because no function into 32 bytes is injective on all inputs. The bytes fed to SHA-256 follow the code.
- The 32-byte constants of the three program ids are written out; that they are the values of their base58 texts is not re-derived.
- `stellar-strkey` and the base58 crate are not in the repository: the first follows SEP-0023 (kinds, payload sizes, the zero unused bits, CRC low byte first), the second draft-msporny-base58 sections 3 and 4.
- Integer overflow panics of debug builds: the wrap-around of a release build is modelled for the i128 deltas, the digest and the handle counter.
- Signature checking: the ledger counts signatures and signers but does not verify the Ed25519 signature.
- The fee-payer's lamports, rent and the creation of missing token accounts: the ledger knows SPL token balances only.
- SolanaRail.SettlementSound: assumes u64 amounts and fewer than 2^62 entries, as the token program reports them; for arbitrary i128 entries the exact condition is `SolanaRail.SettlementExactIff`.
- Crc16.PairChangeDetected: together with `Crc16.StraddleChangeDetected` it covers every burst of ten bits that two characters can cause, not every burst of sixteen at any offset.
- The rows of the currency table: any table with exponents up to 19 is covered, and the shipped exponents are 0, 2 and 3.
- Handles: lock poisoning, `live_handles`, panics inside a call and the tokio runtime itself; a rail is a number, and dropping its last reference is not modelled.
- Verdict wording, `human_must_confirm`, caveats, capabilities, quotes and refunds: each is read off one branch.
- `Registry::list` and `select`, the other fiat processors, destination verdicts of the mock and failover rails, the C, Go and Python shells.
- Recurring plans, XDR transactions and splits of the Stellar rail: their source is not part of this model.
