/**
 * Picking the Elastic IP to take (`_get_unassociated_address`) and asking
 * whether the instance already holds one (`_has_associated_address`). The
 * account's addresses, which boto's `get_all_addresses` returns, are an
 * input sequence in the order the API lists them.
 */
module Selection {
  import opened Wrappers
  import opened Text
  import opened Ipv4
  import opened AllowList

  /** One Elastic IP of the account, with the fields of boto's `Address` the program reads. */
  datatype Address = Address(
    publicIp: string,
    instanceId: Option<string>,
    domain: string,
    allocationId: Option<string>)

  /** `address.instance_id` is truthy: the address is bound to some instance (an empty id counts as unbound). */
  predicate IsAssociated(a: Address)
  {
    a.instanceId.Some? && a.instanceId.value != ""
  }

  /**
   * The allow-list does not reject the address: either it is falsy (None,
   * or an empty list) or it holds the address's public IP.
   */
  predicate PassesValidList(a: Address, valid: Option<seq<string>>)
  {
    valid.None? || valid.value == [] || a.publicIp in valid.value
  }

  /** An address the loop may take: unbound, and allowed by the list. */
  predicate IsCandidate(a: Address, valid: Option<seq<string>>)
  {
    !IsAssociated(a) && PassesValidList(a, valid)
  }

  /**
   * The address `_get_unassociated_address` returns for the allow-list
   * `valid`: the loop overwrites its pick on every candidate and never
   * breaks, so the pick is the last candidate of the list.
   */
  function LastCandidate(addresses: seq<Address>, valid: Option<seq<string>>): Option<Address>
  {
    if addresses == [] then None
    else if IsCandidate(addresses[|addresses| - 1], valid) then Some(addresses[|addresses| - 1])
    else LastCandidate(addresses[..|addresses| - 1], valid)
  }

  /**
   * `_get_unassociated_address`: compute the allow-list from its text, then
   * walk the account's addresses, skipping bound ones and ones the list
   * rejects, and remember the latest survivor.
   */
  method GetUnassociatedAddress(validIpsText: string, addresses: seq<Address>) returns (eip: Option<Address>)
    ensures eip == LastCandidate(addresses, ValidIpsOf(validIpsText))
  {
    eip := None;
    var validIps := ValidIps(validIpsText);
    var i := 0;
    while i < |addresses|
      invariant 0 <= i <= |addresses|
      invariant eip == LastCandidate(addresses[..i], validIps)
    {
      var address := addresses[i];
      LastCandidateStep(addresses, validIps, i);
      if address.instanceId.Some? && address.instanceId.value != "" {
        // already associated
      } else if validIps.Some? && validIps.value != [] && address.publicIp !in validIps.value {
        // unassociated, but not in the valid IPs list
      } else {
        eip := Some(address);
      }
      i := i + 1;
    }
    assert addresses[..|addresses|] == addresses;
  }

  /** One more address replaces the pick exactly when it is a candidate. */
  lemma LastCandidateStep(addresses: seq<Address>, valid: Option<seq<string>>, i: nat)
    requires i < |addresses|
    ensures LastCandidate(addresses[..i + 1], valid) ==
      if IsCandidate(addresses[i], valid) then Some(addresses[i]) else LastCandidate(addresses[..i], valid)
  {
    assert addresses[..i + 1][..i] == addresses[..i];
  }

  /** The pick is empty exactly when no address of the list is a candidate. */
  lemma {:induction false} LastCandidateIsNoneIff(addresses: seq<Address>, valid: Option<seq<string>>)
    ensures LastCandidate(addresses, valid).None? <==>
      forall i | 0 <= i < |addresses| :: !IsCandidate(addresses[i], valid)
  {
    if addresses != [] {
      var init := addresses[..|addresses| - 1];
      LastCandidateIsNoneIff(init, valid);
      assert forall i | 0 <= i < |init| :: init[i] == addresses[i];
    }
  }

  /**
   * A pick is the candidate at some position k of the list, and no address
   * after position k is a candidate.
   */
  lemma {:induction false} LastCandidateIsLast(addresses: seq<Address>, valid: Option<seq<string>>) returns (k: nat)
    requires LastCandidate(addresses, valid).Some?
    ensures k < |addresses| && addresses[k] == LastCandidate(addresses, valid).value
    ensures IsCandidate(addresses[k], valid)
    ensures forall j | k < j < |addresses| :: !IsCandidate(addresses[j], valid)
  {
    var n := |addresses|;
    if IsCandidate(addresses[n - 1], valid) {
      k := n - 1;
    } else {
      var init := addresses[..n - 1];
      k := LastCandidateIsLast(init, valid);
      assert forall j | 0 <= j < |init| :: init[j] == addresses[j];
    }
  }

  /**
   * What the program may take: never an address bound to an instance, and,
   * when the allow-list is a non-empty list, only an address on it.
   */
  lemma PickIsUnboundAndListed(addresses: seq<Address>, valid: Option<seq<string>>)
    requires LastCandidate(addresses, valid).Some?
    ensures !IsAssociated(LastCandidate(addresses, valid).value)
    ensures valid.Some? && valid.value != [] ==> LastCandidate(addresses, valid).value.publicIp in valid.value
    ensures LastCandidate(addresses, valid).value in addresses
  {
    var k := LastCandidateIsLast(addresses, valid);
  }

  /**
   * End to end: when the operator's allow-list text yields a list, the
   * address taken is a dotted quad that some comma-separated piece of the
   * text allows (named verbatim, or inside a CIDR block as a host address).
   */
  lemma PickIsAllowedByText(validIpsText: string, addresses: seq<Address>)
    requires LastCandidate(addresses, ValidIpsOf(validIpsText)).Some?
    requires ValidIpsOf(validIpsText).Some?
    ensures var ip := LastCandidate(addresses, ValidIpsOf(validIpsText)).value.publicIp;
      IsIpv4Text(ip) && SomePieceAllows(Split(validIpsText, ','), Parse(ip))
  {
    var valid := ValidIpsOf(validIpsText);
    PickIsUnboundAndListed(addresses, valid);
    ValidIpsIsNoneIff(validIpsText);
    ValidIpsMembers(validIpsText, LastCandidate(addresses, valid).value.publicIp);
  }

  /**
   * The loop keeps the last candidate, not the first one its docstring
   * promises: of two unbound addresses with no allow-list, the second is taken.
   */
  lemma LastNotFirst(a: Address, b: Address)
    requires !IsAssociated(a) && !IsAssociated(b)
    ensures LastCandidate([a, b], None) == Some(b)
  {
  }

  /**
   * The addresses the API returns when filtered on `instance-id`: those
   * bound to exactly this instance, in list order.
   */
  function AddressesOfInstance(addresses: seq<Address>, instanceId: string): seq<Address>
  {
    if addresses == [] then []
    else
      var rest := AddressesOfInstance(addresses[..|addresses| - 1], instanceId);
      if addresses[|addresses| - 1].instanceId == Some(instanceId) then rest + [addresses[|addresses| - 1]] else rest
  }

  /** `_has_associated_address`: the filtered list is non-empty. */
  predicate HasAssociatedAddress(addresses: seq<Address>, instanceId: string)
  {
    AddressesOfInstance(addresses, instanceId) != []
  }

  /** The filter keeps exactly the addresses bound to the instance. */
  lemma {:induction false} AddressesOfInstanceMembers(addresses: seq<Address>, instanceId: string, a: Address)
    ensures a in AddressesOfInstance(addresses, instanceId) <==> a in addresses && a.instanceId == Some(instanceId)
  {
    if addresses != [] {
      var init := addresses[..|addresses| - 1];
      AddressesOfInstanceMembers(init, instanceId, a);
      assert addresses == init + [addresses[|addresses| - 1]];
    }
  }

  /** The instance already has an Elastic IP exactly when some address of the account names it. */
  lemma HasAssociatedAddressIff(addresses: seq<Address>, instanceId: string)
    ensures HasAssociatedAddress(addresses, instanceId) <==>
      exists i | 0 <= i < |addresses| :: addresses[i].instanceId == Some(instanceId)
  {
    var found := AddressesOfInstance(addresses, instanceId);
    if found != [] {
      AddressesOfInstanceMembers(addresses, instanceId, found[0]);
      var i :| 0 <= i < |addresses| && addresses[i] == found[0];
    } else {
      forall i | 0 <= i < |addresses| ensures addresses[i].instanceId != Some(instanceId) {
        AddressesOfInstanceMembers(addresses, instanceId, addresses[i]);
      }
    }
  }
}
