/**
 * Taking the address (`_assign_address`) and the run as a whole (`main`).
 * The instance id from the metadata service, the account's addresses, the
 * allow-list text, the dry-run switch and whether EC2 accepts the
 * association call are inputs; each way the run ends is a value of
 * `Outcome`, with the exit status `sys.exit` would give.
 */
module Assign {
  import opened Wrappers
  import opened AllowList
  import opened Selection

  /** What `associate_address` is given to name the address. */
  datatype AssociationKey =
    | ByPublicIp(publicIp: string)              // EC2-Classic
    | ByAllocationId(allocationId: Option<string>)  // EC2-VPC

  /** One `associate_address` call: the instance and the key naming the address. */
  datatype AssociationRequest = AssociationRequest(instanceId: string, key: AssociationKey)

  /** How a run of the program ends. */
  datatype Outcome =
    | AlreadyAssigned                            // the instance holds an address: exit 0
    | NoAddressAvailable                         // no candidate: exit 1
    | WouldAssign(address: Address)              // dry run: nothing is called, exit 0
    | Associated(request: AssociationRequest)    // the call succeeded: exit 0
    | AssociationFailed(request: AssociationRequest)  // the call raised: exit 1

  /** The process exit status of each outcome. */
  function ExitCode(o: Outcome): (code: nat)
    ensures code == 0 || code == 1
    ensures code == 1 <==> o.NoAddressAvailable? || o.AssociationFailed?
  {
    match o
    case AlreadyAssigned => 0
    case NoAddressAvailable => 1
    case WouldAssign(_) => 0
    case Associated(_) => 0
    case AssociationFailed(_) => 1
  }

  /**
   * `_assign_address`'s choice of call: an EC2-Classic address (domain
   * "standard") is named by its public IP, any other by its allocation id.
   */
  function AssociationFor(instanceId: string, address: Address): (r: AssociationRequest)
    ensures r.instanceId == instanceId
    ensures r.key.ByPublicIp? <==> address.domain == "standard"
    ensures r.key.ByPublicIp? ==> r.key.publicIp == address.publicIp
    ensures r.key.ByAllocationId? ==> r.key.allocationId == address.allocationId
  {
    if address.domain == "standard" then
      AssociationRequest(instanceId, ByPublicIp(address.publicIp))
    else
      AssociationRequest(instanceId, ByAllocationId(address.allocationId))
  }

  /** The association call the outcome records, if one was made. */
  function RequestMade(o: Outcome): Option<AssociationRequest>
  {
    if o.Associated? || o.AssociationFailed? then Some(o.request) else None
  }

  /**
   * `main`: stop when the instance already holds an address, fail when there
   * is nothing to take, report the pick on a dry run, and otherwise make one
   * association call, whose failure fails the run.
   */
  function RunOutcome(instanceId: string, addresses: seq<Address>, validIpsText: string,
                      dryRun: bool, associateSucceeds: bool): Outcome
  {
    if HasAssociatedAddress(addresses, instanceId) then AlreadyAssigned
    else
      match LastCandidate(addresses, ValidIpsOf(validIpsText))
      case None => NoAddressAvailable
      case Some(address) =>
        if dryRun then WouldAssign(address)
        else
          var request := AssociationFor(instanceId, address);
          if associateSucceeds then Associated(request) else AssociationFailed(request)
  }

  /**
   * `main` run step by step: the has-associated check, the selection loop,
   * and at most one association call.
   */
  method Run(instanceId: string, addresses: seq<Address>, validIpsText: string,
             dryRun: bool, associateSucceeds: bool) returns (outcome: Outcome)
    ensures outcome == RunOutcome(instanceId, addresses, validIpsText, dryRun, associateSucceeds)
  {
    if HasAssociatedAddress(addresses, instanceId) {
      return AlreadyAssigned;
    }
    var address := GetUnassociatedAddress(validIpsText, addresses);
    if address.None? {
      return NoAddressAvailable;
    }
    if dryRun {
      return WouldAssign(address.value);
    }
    var request := AssociationFor(instanceId, address.value);
    if associateSucceeds {
      outcome := Associated(request);
    } else {
      outcome := AssociationFailed(request);
    }
  }

  /**
   * When the run calls EC2 and when it does not: no call if the instance
   * already holds an address, if there is no candidate, or on a dry run;
   * otherwise exactly one, for this instance and an unbound address the
   * allow-list admits, keyed as its domain demands.
   */
  lemma RunCallsAssociateOnlyWhenItShould(instanceId: string, addresses: seq<Address>, validIpsText: string,
                                          dryRun: bool, associateSucceeds: bool)
    ensures var o := RunOutcome(instanceId, addresses, validIpsText, dryRun, associateSucceeds);
      RequestMade(o).Some? <==>
        !HasAssociatedAddress(addresses, instanceId)
        && LastCandidate(addresses, ValidIpsOf(validIpsText)).Some?
        && !dryRun
    ensures var o := RunOutcome(instanceId, addresses, validIpsText, dryRun, associateSucceeds);
      RequestMade(o).Some? ==>
        var address := LastCandidate(addresses, ValidIpsOf(validIpsText)).value;
        RequestMade(o).value == AssociationFor(instanceId, address)
        && address in addresses
        && !IsAssociated(address)
        && PassesValidList(address, ValidIpsOf(validIpsText))
  {
    var valid := ValidIpsOf(validIpsText);
    if LastCandidate(addresses, valid).Some? {
      PickIsUnboundAndListed(addresses, valid);
    }
  }

  /**
   * The exit status: 0 when the instance already had an address, on a dry
   * run with a candidate, or after a successful call; 1 when there was
   * nothing to take or the call failed.
   */
  lemma RunExitCode(instanceId: string, addresses: seq<Address>, validIpsText: string,
                    dryRun: bool, associateSucceeds: bool)
    ensures var code := ExitCode(RunOutcome(instanceId, addresses, validIpsText, dryRun, associateSucceeds));
      code == 1 <==>
        !HasAssociatedAddress(addresses, instanceId)
        && (LastCandidate(addresses, ValidIpsOf(validIpsText)).None? || (!dryRun && !associateSucceeds))
  {
  }

  /** EC2 binding the address named by a successful call to the instance. */
  function AfterAssociation(addresses: seq<Address>, request: AssociationRequest): (r: seq<Address>)
    ensures |r| == |addresses|
  {
    if addresses == [] then []
    else
      var a := addresses[|addresses| - 1];
      var named := match request.key
        case ByPublicIp(ip) => a.publicIp == ip
        case ByAllocationId(id) => a.allocationId == id;
      AfterAssociation(addresses[..|addresses| - 1], request)
        + [if named then a.(instanceId := Some(request.instanceId)) else a]
  }

  /** After the association every address the call named is bound to the instance. */
  lemma {:induction false} AfterAssociationBinds(addresses: seq<Address>, request: AssociationRequest, k: nat)
    requires k < |addresses|
    requires request.key.ByPublicIp? ==> addresses[k].publicIp == request.key.publicIp
    requires request.key.ByAllocationId? ==> addresses[k].allocationId == request.key.allocationId
    ensures AfterAssociation(addresses, request)[k].instanceId == Some(request.instanceId)
  {
    if k < |addresses| - 1 {
      AfterAssociationBinds(addresses[..|addresses| - 1], request, k);
    }
  }

  /**
   * Running again after a successful association changes nothing: the
   * second run finds the instance's address and ends with exit 0 and no call.
   */
  lemma RunIsIdempotent(instanceId: string, addresses: seq<Address>, validIpsText: string,
                        dryRun: bool, associateSucceeds: bool, dryRun2: bool, associateSucceeds2: bool)
    requires RunOutcome(instanceId, addresses, validIpsText, dryRun, associateSucceeds).Associated?
    ensures var after := AfterAssociation(addresses,
        RunOutcome(instanceId, addresses, validIpsText, dryRun, associateSucceeds).request);
      RunOutcome(instanceId, after, validIpsText, dryRun2, associateSucceeds2) == AlreadyAssigned
  {
    var valid := ValidIpsOf(validIpsText);
    var request := RunOutcome(instanceId, addresses, validIpsText, dryRun, associateSucceeds).request;
    var k := LastCandidateIsLast(addresses, valid);
    AfterAssociationBinds(addresses, request, k);
    var after := AfterAssociation(addresses, request);
    HasAssociatedAddressIff(after, instanceId);
  }
}
