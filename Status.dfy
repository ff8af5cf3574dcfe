/**
 * The status lines of the deposit and withdraw cards: the fixed messages the handlers write,
 * the text of a caught error, and the colour classification of a status (green, red or blue).
 */
module Status {
  import opened Wrappers
  import opened Format

  /** U+2705, one UTF-16 code unit, so `includes("✅")` is a test for one character. */
  const CheckMark: char := '\U{2705}'
  /** U+274C, one UTF-16 code unit. */
  const CrossMark: char := '\U{274C}'

  const DenominationNotLoaded: string := "denomination() not loaded yet"
  const InvalidCommitment: string := "Invalid commitment (bytes32 required)"
  const SendingDeposit: string := "Sending deposit tx..."

  const HashChainRootNotLoaded: string := "hashChainRoot() not loaded yet"
  const InvalidVirtualMerkleRoot: string := "Invalid virtualMerkleRoot (bytes32 required)"
  const SendingCheckpoint: string := "Sending setCheckpoint..."
  const CheckpointConfirmed: string := [CheckMark] + " setCheckpoint confirmed"

  const InvalidBytes32Inputs: string := "Invalid bytes32 input(s)"
  const SendingWithdraw: string := "Sending withdraw..."
  const WithdrawConfirmed: string := [CheckMark] + " withdraw confirmed"

  const ConfirmedInBlock: string := [CheckMark] + " Confirmed in block "

  /** `✅ Confirmed in block ${rcpt.blockNumber}`: the block number printed in decimal. */
  function DepositConfirmed(blockNumber: nat): string {
    ConfirmedInBlock + ToRadixString(blockNumber, 10)
  }

  /** What the handlers can learn from a caught exception `e`: its two optional message properties and `String(e)`. */
  datatype Thrown = Thrown(shortMessage: Option<string>, message: Option<string>, asString: string)

  /** `e?.shortMessage ?? e?.message ?? String(e)`: the first property that is present, even an empty one. */
  function ErrorText(e: Thrown): string {
    match (e.shortMessage, e.message)
    case (Some(m), _) => m
    case (None, Some(m)) => m
    case (None, None) => e.asString
  }

  /** `❌ ${ErrorText(e)}`: the status written in the `catch` block. */
  function FailureStatus(e: Thrown): string {
    [CrossMark] + " " + ErrorText(e)
  }

  /** The three colours of the status box. */
  datatype Tone = Success | Error | Pending

  /** `includes("✅") ? green : includes("❌") ? red : blue`. */
  function Classify(status: string): Tone {
    if CheckMark in status then Success else if CrossMark in status then Error else Pending
  }

  /** `status && <Box …>`: no box at all for the empty status, otherwise a box in the status's tone. */
  function Display(status: string): Option<Tone> {
    if status == "" then None else Some(Classify(status))
  }

  /** A text written only in printable ASCII, as every fixed message without a mark is. */
  predicate IsAscii(s: string) {
    forall i :: 0 <= i < |s| ==> ' ' <= s[i] <= '~'
  }

  /** A non-empty ASCII text is shown in the pending colour: it holds neither mark. */
  lemma AsciiIsPending(s: string)
    requires s != "" && IsAscii(s)
    ensures Display(s) == Some(Pending)
  {
    assert CheckMark !in s && CrossMark !in s;
  }

  // One lemma per fixed message, so that each literal is examined on its own.
  lemma DenominationNotLoadedIsPending() ensures Display(DenominationNotLoaded) == Some(Pending) { AsciiIsPending(DenominationNotLoaded); }
  lemma InvalidCommitmentIsPending() ensures Display(InvalidCommitment) == Some(Pending) { AsciiIsPending(InvalidCommitment); }
  lemma SendingDepositIsPending() ensures Display(SendingDeposit) == Some(Pending) { AsciiIsPending(SendingDeposit); }
  lemma HashChainRootNotLoadedIsPending() ensures Display(HashChainRootNotLoaded) == Some(Pending) { AsciiIsPending(HashChainRootNotLoaded); }
  lemma InvalidVirtualMerkleRootIsPending() ensures Display(InvalidVirtualMerkleRoot) == Some(Pending) { AsciiIsPending(InvalidVirtualMerkleRoot); }
  lemma SendingCheckpointIsPending() ensures Display(SendingCheckpoint) == Some(Pending) { AsciiIsPending(SendingCheckpoint); }
  lemma InvalidBytes32InputsIsPending() ensures Display(InvalidBytes32Inputs) == Some(Pending) { AsciiIsPending(InvalidBytes32Inputs); }
  lemma SendingWithdrawIsPending() ensures Display(SendingWithdraw) == Some(Pending) { AsciiIsPending(SendingWithdraw); }

  /** The in-progress messages are shown as pending. */
  lemma InProgressArePending()
    ensures Display(SendingDeposit) == Some(Pending)
    ensures Display(SendingCheckpoint) == Some(Pending)
    ensures Display(SendingWithdraw) == Some(Pending)
  {
    SendingDepositIsPending();
    SendingCheckpointIsPending();
    SendingWithdrawIsPending();
  }

  /** The rejection messages carry no mark, so they too are shown in the pending colour, not as errors. */
  lemma RejectionsArePending()
    ensures Display(DenominationNotLoaded) == Some(Pending)
    ensures Display(InvalidCommitment) == Some(Pending)
    ensures Display(HashChainRootNotLoaded) == Some(Pending)
    ensures Display(InvalidVirtualMerkleRoot) == Some(Pending)
    ensures Display(InvalidBytes32Inputs) == Some(Pending)
  {
    DenominationNotLoadedIsPending();
    InvalidCommitmentIsPending();
    HashChainRootNotLoadedIsPending();
    InvalidVirtualMerkleRootIsPending();
    InvalidBytes32InputsIsPending();
  }

  /** Every confirmation is shown as a success. */
  lemma ConfirmationsAreSuccess(blockNumber: nat)
    ensures Display(DepositConfirmed(blockNumber)) == Some(Success)
    ensures Display(CheckpointConfirmed) == Some(Success)
    ensures Display(WithdrawConfirmed) == Some(Success)
  {
    assert DepositConfirmed(blockNumber)[0] == CheckMark;
    assert CheckpointConfirmed[0] == CheckMark && WithdrawConfirmed[0] == CheckMark;
  }

  /** The confirmation of a deposit names its block: the text after the fixed prefix reads back as the block number. */
  lemma DepositConfirmedNamesBlock(blockNumber: nat)
    ensures DepositConfirmed(blockNumber)[..|ConfirmedInBlock|] == ConfirmedInBlock
    ensures var digits := DepositConfirmed(blockNumber)[|ConfirmedInBlock|..];
      (forall i :: 0 <= i < |digits| ==> IsHexDigit(digits[i])) && ValueOf(digits, 10) == blockNumber
  {
    var s := DepositConfirmed(blockNumber);
    assert s[|ConfirmedInBlock|..] == ToRadixString(blockNumber, 10);
    ToRadixStringRoundTrip(blockNumber, 10);
    ToRadixStringDigits(blockNumber, 10);
  }

  /**
   * A failure is never shown as pending. It is shown as an error exactly when the error text has
   * no check mark; an error text containing one turns the box green.
   */
  lemma FailureTone(e: Thrown)
    ensures Display(FailureStatus(e)) == Some(if CheckMark in ErrorText(e) then Success else Error)
  {
    var s := FailureStatus(e);
    assert s[0] == CrossMark;
    assert CheckMark in s <==> CheckMark in ErrorText(e) by {
      assert s == [CrossMark, ' '] + ErrorText(e);
      assert CheckMark != CrossMark && CheckMark != ' ';
    }
  }
}
