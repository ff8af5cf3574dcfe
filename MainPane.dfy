/**
 * The deposit and withdraw cards of the main pane: the values typed into them, the status line
 * and loading flag of each card, and the three click handlers `onDeposit`, `onCheckpoint` and
 * `onWithdraw`. Each handler is split at its `await`: `Begin…` runs the guards and, when they pass,
 * raises the loading flag, writes the in-progress status and hands the call to the wallet;
 * `Finish…` is the `catch`/`finally` tail that writes the final status and lowers the flag.
 * `On…` is one whole click: `Begin…`, then `Finish…` when a call was made.
 */
module MainPane {
  import opened Wrappers
  import opened Hex32
  import opened Status

  /** The initial recipient of a withdrawal. */
  const DefaultRecipient: string := "0xf39Fd6e51aad88F6F4ce6aB8827279cffFb92266"

  /** A contract call handed to the wallet by `writeContractAsync`, with the arguments the handler passes. */
  datatype Call =
    | Deposit(commitment: string, value: nat)
    | SetCheckpoint(proof: string, hashChainRoot: string, virtualMerkleRoot: string)
    | Withdraw(proof: string, nullifier: string, virtualMerkleRoot: string, recipient: string)

  /** How the awaited call and receipt ended: a receipt in some block, or an exception reaching `catch (e)`. */
  datatype Outcome = Confirmed(blockNumber: nat) | Failed(error: Thrown)

  /** `!denom` is false: the `denomination()` read has arrived and is not `0n`. */
  predicate DenominationLoaded(denom: Option<nat>) {
    denom.Some? && denom.value != 0
  }

  /** `!hashRoot` is false: the `hashChainRoot()` read has arrived and is not the empty string. */
  predicate HashRootLoaded(root: Option<string>) {
    root.Some? && root.value != ""
  }

  /** The status `onDeposit` leaves once its call has settled. */
  function DepositSettled(outcome: Outcome): string {
    match outcome
    case Confirmed(n) => DepositConfirmed(n)
    case Failed(e) => FailureStatus(e)
  }

  /** The status `onCheckpoint` leaves once its call has settled; the block number is not shown. */
  function CheckpointSettled(outcome: Outcome): string {
    match outcome
    case Confirmed(_) => CheckpointConfirmed
    case Failed(e) => FailureStatus(e)
  }

  /** The status `onWithdraw` leaves once its call has settled. */
  function WithdrawSettled(outcome: Outcome): string {
    match outcome
    case Confirmed(_) => WithdrawConfirmed
    case Failed(e) => FailureStatus(e)
  }

  /** The colour a settled call should show: green for a receipt, red for a caught error. */
  function Expected(outcome: Outcome): Tone {
    if outcome.Confirmed? then Success else Error
  }

  /**
   * A settled status is never pending. It shows the expected colour, except that a caught error
   * whose text holds a check mark is shown green.
   */
  lemma SettledTone(outcome: Outcome)
    ensures Display(DepositSettled(outcome)) != Some(Pending)
    ensures Display(CheckpointSettled(outcome)) != Some(Pending)
    ensures Display(WithdrawSettled(outcome)) != Some(Pending)
    ensures outcome.Failed? && CheckMark in ErrorText(outcome.error) ==>
      Display(DepositSettled(outcome)) == Display(CheckpointSettled(outcome)) == Display(WithdrawSettled(outcome)) == Some(Success)
    ensures (outcome.Confirmed? || CheckMark !in ErrorText(outcome.error)) ==>
      Display(DepositSettled(outcome)) == Display(CheckpointSettled(outcome)) == Display(WithdrawSettled(outcome)) == Some(Expected(outcome))
  {
    match outcome
    case Confirmed(n) => ConfirmationsAreSuccess(n);
    case Failed(e) => FailureTone(e);
  }

  class Pane {
    /** The text fields of the two cards. */
    var commitment: string
    var vmr: string
    var nullifier: string
    var recipient: string
    /** `statusDep` / `statusWdr`: the status line under each card; the withdraw card's is shared by both of its buttons. */
    var statusDep: string
    var statusWdr: string
    /** `isDepositLoading` / `isWithdrawLoading`. */
    var depositLoading: bool
    var withdrawLoading: bool
    /** Every call handed to the wallet so far, oldest first. */
    var requested: seq<Call>

    /** While a card's call is in flight its status box is shown, in the pending colour. */
    ghost predicate Valid()
      reads this
    {
      (depositLoading ==> Display(statusDep) == Some(Pending)) &&
      (withdrawLoading ==> Display(statusWdr) == Some(Pending))
    }

    /** The state of a freshly mounted pane. */
    constructor ()
      ensures Valid()
      ensures commitment == DefaultCommitment && vmr == DefaultVirtualMerkleRoot
      ensures nullifier == DefaultNullifier && recipient == DefaultRecipient
      ensures statusDep == "" && statusWdr == ""
      ensures !depositLoading && !withdrawLoading
      ensures requested == []
    {
      commitment, vmr, nullifier, recipient := DefaultCommitment, DefaultVirtualMerkleRoot, DefaultNullifier, DefaultRecipient;
      statusDep, statusWdr := "", "";
      depositLoading, withdrawLoading := false, false;
      requested := [];
    }

    /** Typing into the commitment field: any text is accepted, the guards check it later. */
    method SetCommitment(v: string)
      modifies this`commitment
      ensures commitment == v
    {
      commitment := v;
    }

    method SetVirtualMerkleRoot(v: string)
      modifies this`vmr
      ensures vmr == v
    {
      vmr := v;
    }

    method SetNullifier(v: string)
      modifies this`nullifier
      ensures nullifier == v
    {
      nullifier := v;
    }

    method SetRecipient(v: string)
      modifies this`recipient
      ensures recipient == v
    {
      recipient := v;
    }

    /** "Generate Random": the commitment becomes the hex text of 32 random bytes, which passes the deposit guard. */
    method GenerateCommitment(random: seq<byte>)
      requires |random| == 32
      modifies this`commitment
      ensures commitment == RandomHex32(random)
      ensures IsHex32(commitment)
    {
      commitment := RandomHex32(random);
    }

    /** `onDeposit` up to its `await`: the denomination guard, then the commitment guard, then the call. */
    method BeginDeposit(denom: Option<nat>) returns (call: Option<Call>)
      requires Valid()
      modifies this`statusDep, this`depositLoading, this`requested
      ensures Valid()
      ensures !DenominationLoaded(denom) ==>
        call == None && statusDep == DenominationNotLoaded &&
        depositLoading == old(depositLoading) && requested == old(requested)
      ensures DenominationLoaded(denom) && !IsHex32(commitment) ==>
        call == None && statusDep == InvalidCommitment &&
        depositLoading == old(depositLoading) && requested == old(requested)
      ensures DenominationLoaded(denom) && IsHex32(commitment) ==>
        call == Some(Deposit(commitment, denom.value)) && statusDep == SendingDeposit &&
        depositLoading && requested == old(requested) + [call.value]
    {
      if !DenominationLoaded(denom) {
        DenominationNotLoadedIsPending();
        statusDep := DenominationNotLoaded;
        return None;
      }
      if !IsHex32(commitment) {
        InvalidCommitmentIsPending();
        statusDep := InvalidCommitment;
        return None;
      }
      SendingDepositIsPending();
      depositLoading := true;
      statusDep := SendingDeposit;
      call := Some(Deposit(commitment, denom.value));
      requested := requested + [call.value];
    }

    /** `onDeposit` after its `await`: the receipt's block or the caught error, then `finally`. */
    method FinishDeposit(outcome: Outcome)
      requires Valid()
      modifies this`statusDep, this`depositLoading
      ensures Valid()
      ensures statusDep == DepositSettled(outcome) && !depositLoading
    {
      statusDep := DepositSettled(outcome);
      depositLoading := false;
    }

    /** One click on "Deposit Funds", the call (if any) settling with `outcome`. */
    method OnDeposit(denom: Option<nat>, outcome: Outcome)
      requires Valid()
      modifies this`statusDep, this`depositLoading, this`requested
      ensures Valid()
      ensures !DenominationLoaded(denom) ==>
        statusDep == DenominationNotLoaded && depositLoading == old(depositLoading) && requested == old(requested)
      ensures DenominationLoaded(denom) && !IsHex32(commitment) ==>
        statusDep == InvalidCommitment && depositLoading == old(depositLoading) && requested == old(requested)
      ensures DenominationLoaded(denom) && IsHex32(commitment) ==>
        requested == old(requested) + [Deposit(commitment, denom.value)] &&
        statusDep == DepositSettled(outcome) && !depositLoading
    {
      var call := BeginDeposit(denom);
      if call.Some? {
        FinishDeposit(outcome);
      }
    }

    /** `onCheckpoint` up to its `await`: the hash-chain-root guard, then the virtual-Merkle-root guard, then the call. */
    method BeginCheckpoint(hashRoot: Option<string>) returns (call: Option<Call>)
      requires Valid()
      modifies this`statusWdr, this`withdrawLoading, this`requested
      ensures Valid()
      ensures !HashRootLoaded(hashRoot) ==>
        call == None && statusWdr == HashChainRootNotLoaded &&
        withdrawLoading == old(withdrawLoading) && requested == old(requested)
      ensures HashRootLoaded(hashRoot) && !IsHex32(vmr) ==>
        call == None && statusWdr == InvalidVirtualMerkleRoot &&
        withdrawLoading == old(withdrawLoading) && requested == old(requested)
      ensures HashRootLoaded(hashRoot) && IsHex32(vmr) ==>
        call == Some(SetCheckpoint("0x", hashRoot.value, vmr)) && statusWdr == SendingCheckpoint &&
        withdrawLoading && requested == old(requested) + [call.value]
    {
      if !HashRootLoaded(hashRoot) {
        HashChainRootNotLoadedIsPending();
        statusWdr := HashChainRootNotLoaded;
        return None;
      }
      if !IsHex32(vmr) {
        InvalidVirtualMerkleRootIsPending();
        statusWdr := InvalidVirtualMerkleRoot;
        return None;
      }
      SendingCheckpointIsPending();
      withdrawLoading := true;
      statusWdr := SendingCheckpoint;
      call := Some(SetCheckpoint("0x", hashRoot.value, vmr));
      requested := requested + [call.value];
    }

    /** `onCheckpoint` after its `await`. */
    method FinishCheckpoint(outcome: Outcome)
      requires Valid()
      modifies this`statusWdr, this`withdrawLoading
      ensures Valid()
      ensures statusWdr == CheckpointSettled(outcome) && !withdrawLoading
    {
      statusWdr := CheckpointSettled(outcome);
      withdrawLoading := false;
    }

    /** One click on "Set Checkpoint". */
    method OnCheckpoint(hashRoot: Option<string>, outcome: Outcome)
      requires Valid()
      modifies this`statusWdr, this`withdrawLoading, this`requested
      ensures Valid()
      ensures !HashRootLoaded(hashRoot) ==>
        statusWdr == HashChainRootNotLoaded && withdrawLoading == old(withdrawLoading) && requested == old(requested)
      ensures HashRootLoaded(hashRoot) && !IsHex32(vmr) ==>
        statusWdr == InvalidVirtualMerkleRoot && withdrawLoading == old(withdrawLoading) && requested == old(requested)
      ensures HashRootLoaded(hashRoot) && IsHex32(vmr) ==>
        requested == old(requested) + [SetCheckpoint("0x", hashRoot.value, vmr)] &&
        statusWdr == CheckpointSettled(outcome) && !withdrawLoading
    {
      var call := BeginCheckpoint(hashRoot);
      if call.Some? {
        FinishCheckpoint(outcome);
      }
    }

    /** `onWithdraw` up to its `await`: one guard over both bytes32 fields; the recipient is passed on unchecked. */
    method BeginWithdraw() returns (call: Option<Call>)
      requires Valid()
      modifies this`statusWdr, this`withdrawLoading, this`requested
      ensures Valid()
      ensures !(IsHex32(vmr) && IsHex32(nullifier)) ==>
        call == None && statusWdr == InvalidBytes32Inputs &&
        withdrawLoading == old(withdrawLoading) && requested == old(requested)
      ensures IsHex32(vmr) && IsHex32(nullifier) ==>
        call == Some(Withdraw("0x", nullifier, vmr, recipient)) && statusWdr == SendingWithdraw &&
        withdrawLoading && requested == old(requested) + [call.value]
    {
      if !IsHex32(vmr) || !IsHex32(nullifier) {
        InvalidBytes32InputsIsPending();
        statusWdr := InvalidBytes32Inputs;
        return None;
      }
      SendingWithdrawIsPending();
      withdrawLoading := true;
      statusWdr := SendingWithdraw;
      call := Some(Withdraw("0x", nullifier, vmr, recipient));
      requested := requested + [call.value];
    }

    /** `onWithdraw` after its `await`. */
    method FinishWithdraw(outcome: Outcome)
      requires Valid()
      modifies this`statusWdr, this`withdrawLoading
      ensures Valid()
      ensures statusWdr == WithdrawSettled(outcome) && !withdrawLoading
    {
      statusWdr := WithdrawSettled(outcome);
      withdrawLoading := false;
    }

    /** One click on "Withdraw". */
    method OnWithdraw(outcome: Outcome)
      requires Valid()
      modifies this`statusWdr, this`withdrawLoading, this`requested
      ensures Valid()
      ensures !(IsHex32(vmr) && IsHex32(nullifier)) ==>
        statusWdr == InvalidBytes32Inputs && withdrawLoading == old(withdrawLoading) && requested == old(requested)
      ensures IsHex32(vmr) && IsHex32(nullifier) ==>
        requested == old(requested) + [Withdraw("0x", nullifier, vmr, recipient)] &&
        statusWdr == WithdrawSettled(outcome) && !withdrawLoading
    {
      var call := BeginWithdraw();
      if call.Some? {
        FinishWithdraw(outcome);
      }
    }
  }

  /**
   * A deposit from a freshly mounted pane: the default commitment passes its guard, so once the
   * denomination is loaded exactly one call is made, and the card ends idle in a settled colour.
   */
  method DepositFromFreshPane(denom: nat, outcome: Outcome) returns (calls: seq<Call>, status: string, loading: bool)
    requires denom > 0
    ensures calls == [Deposit(DefaultCommitment, denom)]
    ensures !loading && Display(status) != Some(Pending)
    ensures outcome.Confirmed? ==> Display(status) == Some(Success)
  {
    DefaultsAreHex32();
    var pane := new Pane();
    pane.OnDeposit(Some(denom), outcome);
    SettledTone(outcome);
    calls, status, loading := pane.requested, pane.statusDep, pane.depositLoading;
  }

  /**
   * A withdrawal goes through whatever the recipient field holds, even an empty text:
   * only the two bytes32 fields are checked.
   */
  method WithdrawIgnoresRecipient(vmr: string, nullifier: string, recipient: string, outcome: Outcome)
    returns (calls: seq<Call>, status: string)
    requires IsHex32(vmr) && IsHex32(nullifier)
    ensures calls == [Withdraw("0x", nullifier, vmr, recipient)]
    ensures status == WithdrawSettled(outcome)
  {
    var pane := new Pane();
    pane.SetVirtualMerkleRoot(vmr);
    pane.SetNullifier(nullifier);
    pane.SetRecipient(recipient);
    pane.OnWithdraw(outcome);
    calls, status := pane.requested, pane.statusWdr;
  }

  /**
   * Without a loaded denomination nothing is sent, whatever the commitment; a zero denomination
   * counts as not loaded.
   */
  method DepositWithoutDenomination(denom: Option<nat>, commitment: string) returns (calls: seq<Call>, status: string)
    requires denom == None || denom == Some(0)
    ensures calls == [] && status == DenominationNotLoaded
  {
    var pane := new Pane();
    pane.SetCommitment(commitment);
    pane.OnDeposit(denom, Failed(Thrown(None, None, "")));
    calls, status := pane.requested, pane.statusDep;
  }

  /** The initial recipient is a 42-character address, not a bytes32 text, and the withdraw guard never asks. */
  lemma DefaultRecipientIsNotHex32()
    ensures !IsHex32(DefaultRecipient)
  {
  }
}
