# MainPane: deposit and withdraw cards of a mixer front end

This project models the logic of the main pane of a small web front end for a Tornado-style
mixer contract on Sepolia. The pane has two cards. The deposit card takes a `bytes32`
commitment, which can be typed in or generated from 32 random bytes, and sends
`deposit(commitment)` with the contract's denomination as value. The withdraw card takes a
virtual Merkle root, a nullifier and a recipient. Its two buttons send
`setCheckpoint("0x", hashChainRoot, virtualMerkleRoot)` and
`withdraw("0x", nullifier, virtualMerkleRoot, recipient)`. Each card has a status line, and
the line's text decides the colour of its box.

Modules:

- `Format`: the JavaScript conversions the pane relies on. These are `toString(radix)` for
  non-negative integers, `padStart` with a one-character fill, `repeat`, and the hex digit
  alphabet.
- `Hex32`: the `isHex32` check and the `randomHex32` encoding of 32 bytes. A decoder is the
  encoding's partner. It is proved to undo the encoding, and the encoding is proved to
  re-create every lower-case text the check accepts. This module also holds the three
  initial field values.
- `Address`: `truncateAddress`.
- `Status`: the fixed status messages, the text of a caught error
  (`shortMessage ?? message ?? String(e)`), and the classifier that shows a status green,
  red or blue, or hides the box when the status is empty.
- `MainPane`: a `Pane` class whose fields are the component's state: the four text fields,
  the two status lines, the two loading flags, and the calls handed to the wallet so far.
  It has the input setters, "Generate Random" and the three click handlers. Each handler is
  split at its `await`. `Begin…` runs the guards and, when they pass, issues the call.
  `Finish…` is the `catch`/`finally` tail. `On…` is a whole click. The class invariant
  `Valid` says that while a card is loading, its box is shown in the pending colour.

Behaviour the proofs bring out (each is a proved property of the code as written):

- Guard rejections ("… not loaded yet", "Invalid …") contain neither mark, so their box is
  blue, the colour of work in progress, not red (`Status.RejectionsArePending`).
- A caught error whose message contains "✅" is shown green (`Status.FailureTone`).
- `truncateAddress` makes 11- and 12-character texts longer: the result is always 13
  characters (`Address.TruncateShortensIff`).
- A denomination of `0n` counts as "not loaded", and so does an empty hash-chain root
  (`MainPane.DenominationLoaded`, `MainPane.HashRootLoaded`).
- The recipient is never checked (`MainPane.WithdrawIgnoresRecipient`).
- The loading flags are set and cleared, but nothing reads them. The component discards the
  state value, and the buttons' `isLoading` props are commented out. A second click while a
  call is in flight is therefore not blocked.

## Model

| member | source | states |
|---|---|---|
| Hex32.IsHex32MatchesPattern | src/components/MainPane/MainPane.tsx:58 | the positional reading of `isHex32` (66 characters, `0x`, then hex digits of either case) accepts exactly what the anchored pattern `^0x[0-9a-fA-F]{64}$` matches, the pattern being defined independently as a run of 64 digits |
| Hex32.HexRunIff | src/components/MainPane/MainPane.tsx:58 | the pattern's digit run `[0-9a-fA-F]{n}$` matches exactly the texts of n hex digits |
| Hex32.RejectsUpperCaseX | src/components/MainPane/MainPane.tsx:58 | a `0X` prefix is rejected whatever follows |
| Hex32.RejectsWrongDigitCount | src/components/MainPane/MainPane.tsx:58 | `0x` followed by any number of characters other than 64 is rejected |
| Hex32.RejectsSurroundingWhitespace | src/components/MainPane/MainPane.tsx:58 | the pattern is anchored at both ends: a text with a leading or trailing space, tab, carriage return or newline is rejected |
| Hex32.ByteHexDigits | src/components/MainPane/MainPane.tsx:61 | `b.toString(16).padStart(2, "0")` is exactly the high nibble's digit followed by the low nibble's digit, for every byte |
| Hex32.JoinPairs | src/components/MainPane/MainPane.tsx:62 | joining two-character parts with `""` places part i at positions 2i and 2i+1 |
| Hex32.HexOfBytesLayout | src/components/MainPane/MainPane.tsx:59-62 | the encoding of n bytes has length 2+2n, starts with `0x`, and holds byte i's high and low digits at positions 2+2i and 3+2i |
| Hex32.HexOfBytesLowerCase | src/components/MainPane/MainPane.tsx:59-62 | every character after the `0x` is a lower-case hex digit |
| Hex32.HexOfBytesIsHex32 | src/components/MainPane/MainPane.tsx:58-62 | the encoding of 32 bytes passes `isHex32` |
| Hex32.RandomHex32 | src/components/MainPane/MainPane.tsx:59-62 | `randomHex32` returns 66 characters that pass `isHex32`, for every draw of 32 bytes |
| Hex32.DecodeHex32 | src/components/MainPane/MainPane.tsx:58 | the decoder yields bytes exactly for the texts `isHex32` accepts, and then 32 of them |
| Hex32.PairValueOfDigits | src/components/MainPane/MainPane.tsx:61 | reading back the two digits written for a byte gives the byte |
| Hex32.DigitsOfPairValue | src/components/MainPane/MainPane.tsx:61 | writing out the byte two lower-case digits denote gives those digits again |
| Hex32.DecodeHexOfBytes | src/components/MainPane/MainPane.tsx:59-62 | decoding the encoding of 32 bytes gives the bytes back |
| Hex32.HexOfBytesDecodeHex32 | src/components/MainPane/MainPane.tsx:58-62 | every lower-case text `isHex32` accepts is the encoding of the bytes it denotes |
| Hex32.RandomHex32Injective | src/components/MainPane/MainPane.tsx:59-62 | distinct random draws give distinct commitments |
| Hex32.RepeatedDigitIsHex32 | src/components/MainPane/MainPane.tsx:95-97 | `"0x" + c.repeat(64)` passes `isHex32` for every hex digit c |
| Hex32.DefaultsAreHex32 | src/components/MainPane/MainPane.tsx:95-128 | the initial commitment (line 96), virtual Merkle root (line 125) and nullifier (line 127) all pass `isHex32` |
| Format.DigitChar | src/components/MainPane/MainPane.tsx:61 | a digit below 16 is written as `0`-`9` or lower-case `a`-`f` |
| Format.DigitValue | src/components/MainPane/MainPane.tsx:58 | a digit of either case denotes a value below 16 |
| Format.DigitCharRoundTrip | src/components/MainPane/MainPane.tsx:61 | the written digit is lower case and reads back as the value; only zero is written `0` |
| Format.DigitValueRoundTrip | src/components/MainPane/MainPane.tsx:61 | a lower-case digit is re-written as itself |
| Format.ToRadixString | src/components/MainPane/MainPane.tsx:61 | `n.toString(radix)` has one digit exactly when n is below the radix |
| Format.ToRadixStringDigits | src/components/MainPane/MainPane.tsx:61 | `toString(radix)`, here and for the block number at line 116, writes only lower-case digits below the radix, with a leading `0` only for zero |
| Format.ToRadixStringRoundTrip | src/components/MainPane/MainPane.tsx:61 | reading the digits of `toString(radix)` as a numeral gives the number back, for the byte digits here and the block number at line 116 |
| Format.ToRadixStringShort | src/components/MainPane/MainPane.tsx:61 | a number below radix² is written with one digit, or with its quotient digit followed by its remainder digit |
| Format.Repeat | src/components/MainPane/MainPane.tsx:96 | `c.repeat(n)` is n copies of c, as used for the three defaults (also lines 125 and 127) |
| Format.PadStart | src/components/MainPane/MainPane.tsx:61 | `padStart(width)` gives a text of the larger of the two lengths |
| Format.PadStartKeeps | src/components/MainPane/MainPane.tsx:61 | padding keeps the text as a suffix and puts only fill characters before it |
| Address.TruncateAddress | src/components/MainPane/MainPane.tsx:179-182 | texts of up to 10 characters come back unchanged; longer ones come back 13 characters long |
| Address.TruncateKeepsEnds | src/components/MainPane/MainPane.tsx:179-182 | a truncated text is the first six characters, `...`, then the last four |
| Address.TruncateIdempotent | src/components/MainPane/MainPane.tsx:179-182 | truncating twice is truncating once |
| Address.TruncateShortensIff | src/components/MainPane/MainPane.tsx:179-182 | the result is shorter than the input exactly when the input is longer than 13 characters |
| Address.TruncateEthereumAddress | src/components/MainPane/MainPane.tsx:179-182 | applied to the contract address (line 244), a 42-character address is always shown in 13 characters and keeps its `0x` prefix |
| Status.InProgressArePending | src/components/MainPane/MainPane.tsx:376-380 | the three "Sending …" messages (lines 105, 139, 160) are shown in the pending colour, by the same classifier as at lines 509-513 |
| Status.RejectionsArePending | src/components/MainPane/MainPane.tsx:376-380 | the five guard rejections (lines 102-103, 136-137, 158) are shown in the pending colour, not as errors |
| Status.ConfirmationsAreSuccess | src/components/MainPane/MainPane.tsx:376-380 | the three confirmations (lines 116, 149, 170) are shown green, whatever the block number |
| Status.DepositConfirmedNamesBlock | src/components/MainPane/MainPane.tsx:116 | the deposit confirmation is the fixed prefix followed by decimal digits that read back as the block number |
| Status.FailureTone | src/components/MainPane/MainPane.tsx:376-380 | a failure status (lines 118, 151, 172) is never pending; it is red exactly when the error text lacks a check mark, and green otherwise |
| Status.AsciiIsPending | src/components/MainPane/MainPane.tsx:371-380 | a non-empty printable-ASCII status is shown in the pending colour |
| MainPane.SettledTone | src/components/MainPane/MainPane.tsx:106-176 | after a call settles (the `try`/`catch` tails of the three handlers, coloured as at lines 376-380 and 509-513) the card is never pending: a receipt is green, a caught error is red unless its text holds a check mark, in which case it is green |
| MainPane.Pane.constructor | src/components/MainPane/MainPane.tsx:95-133 | a fresh pane holds the three bytes32 defaults, the default recipient, empty statuses, cleared loading flags and no calls |
| MainPane.Pane.SetCommitment | src/components/MainPane/MainPane.tsx:336 | typing sets the commitment to any text, unchecked |
| MainPane.Pane.SetVirtualMerkleRoot | src/components/MainPane/MainPane.tsx:437 | typing sets the virtual Merkle root to any text, unchecked |
| MainPane.Pane.SetNullifier | src/components/MainPane/MainPane.tsx:453 | typing sets the nullifier to any text, unchecked |
| MainPane.Pane.SetRecipient | src/components/MainPane/MainPane.tsx:471 | typing sets the recipient to any text, unchecked |
| MainPane.Pane.GenerateCommitment | src/components/MainPane/MainPane.tsx:351 | "Generate Random" sets the commitment to the random draw's encoding, which passes `isHex32` |
| MainPane.Pane.BeginDeposit | src/components/MainPane/MainPane.tsx:101-115 | the denomination guard comes first, then the commitment guard; a rejection writes its message and changes neither the loading flag nor the calls; otherwise one `deposit(commitment)` with the denomination as value is issued, the flag is raised and the status reads "Sending deposit tx..."; the invariant is kept |
| MainPane.Pane.FinishDeposit | src/components/MainPane/MainPane.tsx:115-121 | the status becomes the block confirmation or `❌` with the error text, and the flag is cleared |
| MainPane.Pane.OnDeposit | src/components/MainPane/MainPane.tsx:101-122 | a whole click: a rejection as above, or exactly one call appended and the settled status with the flag cleared |
| MainPane.Pane.BeginCheckpoint | src/components/MainPane/MainPane.tsx:135-148 | the hash-chain-root guard comes first, then the virtual-Merkle-root guard; otherwise one `setCheckpoint("0x", root, vmr)` is issued and the shared withdraw status reads "Sending setCheckpoint..." |
| MainPane.Pane.FinishCheckpoint | src/components/MainPane/MainPane.tsx:148-154 | the status becomes the checkpoint confirmation, with no block number, or the failure text, and the flag is cleared |
| MainPane.Pane.OnCheckpoint | src/components/MainPane/MainPane.tsx:135-155 | a whole click on "Set Checkpoint", rejection or one call plus settled status |
| MainPane.Pane.BeginWithdraw | src/components/MainPane/MainPane.tsx:157-169 | one combined guard over the root and the nullifier; otherwise one `withdraw("0x", nullifier, vmr, recipient)` is issued with the recipient unchecked |
| MainPane.Pane.FinishWithdraw | src/components/MainPane/MainPane.tsx:169-175 | the status becomes the withdraw confirmation or the failure text, and the flag is cleared |
| MainPane.Pane.OnWithdraw | src/components/MainPane/MainPane.tsx:157-176 | a whole click on "Withdraw", rejection or one call plus settled status |
| MainPane.DepositFromFreshPane | src/components/MainPane/MainPane.tsx:95-122 | on a fresh pane with a loaded denomination the default commitment passes, exactly one deposit is made, and the card ends idle and not pending, green on a receipt |
| MainPane.WithdrawIgnoresRecipient | src/components/MainPane/MainPane.tsx:157-176 | any recipient text, even an empty one, is passed to `withdraw` once the two bytes32 fields pass |
| MainPane.DepositWithoutDenomination | src/components/MainPane/MainPane.tsx:102 | with no denomination, or a zero one, nothing is sent whatever the commitment, and the "not loaded" message is shown |
| MainPane.DefaultRecipientIsNotHex32 | src/components/MainPane/MainPane.tsx:129-131 | the initial recipient is an address, not a bytes32 text |

## Left out

- Rendering: the JSX layout, the theme colours, the icons, the "Valid"/"Invalid" badges and
  the red input borders. The badges and borders call the same `isHex32` as the guards.
- The wallet and the chain. The `denomination()` and `hashChainRoot()` reads are parameters
  (`Option`, `None` while not loaded). The awaited `writeContractAsync` and
  `waitForTransactionReceipt` pair is reduced to an `Outcome`: a block number or a thrown
  value. Calls are recorded in `requested`, not sent. Chain id, ABI and contract address are
  not modelled.
- `crypto.getRandomValues`: the 32 bytes are a parameter of `RandomHex32`.
- `TORNADO_ADDRESS` comes from the environment. `truncateAddress` is modelled for every
  text, but the variable itself is not modelled.
- Asynchrony: each handler is split at its `await`, and `Begin…`/`Finish…` may be called in
  any order. React's batching of state updates and the stale closure values a handler reads
  are not modelled.
- `String(e)` for an arbitrary thrown value is an opaque text field of `Thrown`.
- Strings are sequences of Unicode characters, not UTF-16 code units. "✅" and "❌" are single
  code units in both, so `includes` coincides with membership.
- Format.ToRadixString: radixes above 16 (JavaScript allows up to 36) and negative numbers
  are not modelled. The pane uses radix 16 for bytes and decimal for block numbers.
- The other components (header, footer, status card widgets) and the wagmi configuration are
  not part of this model.
