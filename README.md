# aws-ec2-assign-elastic-ip, modelled in Dafny

`aws-ec2-assign-elastic-ip` is a boot-time script. It gives the EC2 instance
it runs on an unused Elastic IP. The script:

1. stops with exit 0 when the instance already holds an address;
2. reads an operator allow-list of dotted quads and CIDR blocks;
3. walks the account's addresses and picks one that is unbound and allowed;
4. associates it by public IP (EC2-Classic) or by allocation id (VPC).

On a dry run it only reports the pick. With nothing to pick, or when the
association call fails, it exits with 1.

The model follows `aws_ec2_assign_elastic_ip/__init__.py`:

- `text.dfy` (module `Text`): Python 2 `str.split` with one separator, and `str.strip`.
- `ipv4.dfy` (module `Ipv4`):
  - the two regular expressions as predicates over strings;
  - addresses as numbers below 2^32;
  - netaddr's dotted-quad formatting;
  - the block a CIDR names, and its host addresses.
- `allow_list.dfy` (module `AllowList`): `_valid_ips`, as a method with its
  loops, proved against the function `ValidIpsOf`.
- `selection.dfy` (module `Selection`):
  - `_get_unassociated_address`, as a method with its loop, proved against `LastCandidate`;
  - `_has_associated_address`.
- `assign.dfy` (module `Assign`): `_assign_address`'s choice of key, and `main` as an outcome with its exit status.
- `wrappers.dfy`: the `Option` type.

Where the design description of the tool and the code disagree, the model
follows the code:

- `_get_unassociated_address` keeps overwriting its pick and never breaks.
  It returns the last eligible address, not the first one its docstring
  and the design describe (`Selection.LastNotFirst`).
- There is no deny-list, and addresses attached to network interfaces are
  not checked separately. Only `instance_id` is looked at.
- A token that matches neither pattern, such as `999.1.1.1/40`, is dropped
  without a word; it is not a configuration error with exit 2. When no
  token survives, the result is None, which means "any address".
- `associate_address` is called without the flag that forbids
  reassociation.

## Model

| member | source | states |
|---|---|---|
| Text.SplitParts | aws_ec2_assign_elastic_ip/__init__.py:166 | the comma-separated pieces hold no comma and join back, with commas, to the allow-list text |
| Text.SplitJoin | aws_ec2_assign_elastic_ip/__init__.py:166 | splitting the join of separator-free parts gives those parts back |
| Text.SkipSpaceForward | aws_ec2_assign_elastic_ip/__init__.py:167 | the leading run skipped is all white space, and it stops at a non-space character or the end |
| Text.SkipSpaceBackward | aws_ec2_assign_elastic_ip/__init__.py:167 | the trailing run skipped is all white space, and it stops after a non-space character or at the start |
| Text.StripIsTrimmedSlice | aws_ec2_assign_elastic_ip/__init__.py:167 | `strip()` returns a slice with only white space outside it and none at either of its ends |
| Text.StripIdempotent | aws_ec2_assign_elastic_ip/__init__.py:167 | stripping a stripped piece changes nothing |
| Ipv4.OctetTextIsDecimal | aws_ec2_assign_elastic_ip/__init__.py:158-160 | an octet the pattern accepts is the canonical numeral of a value below 256 |
| Ipv4.DecimalIsOctetText | aws_ec2_assign_elastic_ip/__init__.py:158-160 | every value below 256 prints as an octet the pattern accepts, and reads back as itself |
| Ipv4.OctetTextIsCanonical | aws_ec2_assign_elastic_ip/__init__.py:158-160 | the octet pattern accepts exactly the numerals of 0..255, so "01" and "256" are refused |
| Ipv4.PrefixTextIsDecimal | aws_ec2_assign_elastic_ip/__init__.py:164 | a prefix length the pattern accepts is the canonical numeral of a value of at most 32 |
| Ipv4.DecimalIsPrefixText | aws_ec2_assign_elastic_ip/__init__.py:164 | every value up to 32 prints as a prefix length the pattern accepts |
| Ipv4.Octets | aws_ec2_assign_elastic_ip/__init__.py:185 | the four octets (`words`) are below 256 and recombine to the address |
| Ipv4.OctetsOfOctetsToIp | aws_ec2_assign_elastic_ip/__init__.py:185 | splitting an address built from four octets gives those octets back |
| Ipv4.FormatParse | aws_ec2_assign_elastic_ip/__init__.py:193 | every formatted address matches the address pattern and parses back to itself |
| Ipv4.ParseFormat | aws_ec2_assign_elastic_ip/__init__.py:158-160 | text the address pattern accepts is already in canonical form: parsing then formatting returns it |
| Ipv4.Ipv4TextIsCanonical | aws_ec2_assign_elastic_ip/__init__.py:158-160 | the address pattern accepts exactly the dotted quads netaddr prints |
| Ipv4.FormatInjective | aws_ec2_assign_elastic_ip/__init__.py:193 | distinct addresses format differently |
| Ipv4.NetworkAddress | aws_ec2_assign_elastic_ip/__init__.py:177 | the block's first address is at most x, and x lies below first + 2^(32-n), which is at most 2^32 |
| Ipv4.InBlockIsRange | aws_ec2_assign_elastic_ip/__init__.py:177-182 | sharing the first n bits with x means lying between the network address and the broadcast address |
| Ipv4.HostsBetweenMembers | aws_ec2_assign_elastic_ip/__init__.py:182-193 | an address is listed iff it lies in the range and its last octet is neither 0 nor 255 |
| Ipv4.HostsBetweenAscending | aws_ec2_assign_elastic_ip/__init__.py:182-193 | listed addresses lie in the range, are host addresses, and strictly ascend |
| Ipv4.BlockHostsMembers | aws_ec2_assign_elastic_ip/__init__.py:182-193 | a block's expansion holds an address's dotted quad iff the address is in the block and does not end in .0 or .255 |
| Ipv4.CidrHostsMembers | aws_ec2_assign_elastic_ip/__init__.py:174-193 | the same, for the block a CIDR token names |
| Ipv4.CidrHostsAscending | aws_ec2_assign_elastic_ip/__init__.py:182-193 | a CIDR's expansion holds only well-formed dotted quads, in strictly ascending numeric order |
| Ipv4.CidrHostsCount | aws_ec2_assign_elastic_ip/__init__.py:182-193 | a block of prefix at most 24 yields 254 addresses for every 256, so a /16 loses 512 |
| Ipv4.SingleAddressBlock | aws_ec2_assign_elastic_ip/__init__.py:182-193 | a /32 yields its address only when it ends in neither .0 nor .255, so `10.0.0.0/32` yields nothing |
| AllowList.ValidIps | aws_ec2_assign_elastic_ip/__init__.py:151-200 | the loop over the pieces computes `ValidIpsOf`: the contributions of the pieces in order, or None when empty |
| AllowList.ExpandToken | aws_ec2_assign_elastic_ip/__init__.py:169-193 | one stripped piece adds itself if a dotted quad, its block's hosts if a CIDR, and nothing otherwise |
| AllowList.ExpandBlock | aws_ec2_assign_elastic_ip/__init__.py:177-193 | the expansion of a CIDR is the host addresses of its block, from the network address up |
| AllowList.ExpandRange | aws_ec2_assign_elastic_ip/__init__.py:182-193 | the inner loop yields exactly the formatted addresses of the range that do not end in .0 or .255, ascending |
| AllowList.TokenIpsMembers | aws_ec2_assign_elastic_ip/__init__.py:169-193 | an address's dotted quad is contributed by a token iff the token names it or holds it as a host address |
| AllowList.TokenIpsWellFormed | aws_ec2_assign_elastic_ip/__init__.py:169-193 | a token contributes only dotted quads the address pattern accepts |
| AllowList.PlainPieceKept | aws_ec2_assign_elastic_ip/__init__.py:166-171 | a dotted-quad piece is appended as written after stripping, at its place among the pieces |
| AllowList.CidrPieceExpanded | aws_ec2_assign_elastic_ip/__init__.py:174-193 | a CIDR piece contributes its block's host addresses, at its place among the pieces |
| AllowList.UnrecognisedPieceIgnored | aws_ec2_assign_elastic_ip/__init__.py:166-174 | a piece matching neither pattern leaves the result as if it were absent |
| AllowList.ValidIpsIsNoneIff | aws_ec2_assign_elastic_ip/__init__.py:195-200 | the result is None ("any address") exactly when no piece contributes; otherwise the list is non-empty |
| AllowList.CollectIpsMembers | aws_ec2_assign_elastic_ip/__init__.py:166-193 | an address's dotted quad is collected iff some stripped piece allows it |
| AllowList.CollectIpsWellFormed | aws_ec2_assign_elastic_ip/__init__.py:166-193 | everything collected is a well-formed dotted quad |
| AllowList.ValidIpsMembers | aws_ec2_assign_elastic_ip/__init__.py:166-200 | a string is in the returned list iff it is a dotted quad that some stripped piece allows |
| Selection.GetUnassociatedAddress | aws_ec2_assign_elastic_ip/__init__.py:107-136 | the loop returns `LastCandidate` of the addresses under the allow-list the text yields |
| Selection.LastCandidateStep | aws_ec2_assign_elastic_ip/__init__.py:115-131 | one more address replaces the pick exactly when it is a candidate |
| Selection.LastCandidateIsNoneIff | aws_ec2_assign_elastic_ip/__init__.py:112-136 | there is no pick iff no address is unbound and allowed |
| Selection.LastCandidateIsLast | aws_ec2_assign_elastic_ip/__init__.py:115-131 | the pick is a candidate at some position, and no later address is a candidate |
| Selection.PickIsUnboundAndListed | aws_ec2_assign_elastic_ip/__init__.py:117-127 | the pick is one of the addresses, is never bound, and is on the allow-list when that list is non-empty |
| Selection.PickIsAllowedByText | aws_ec2_assign_elastic_ip/__init__.py:113-127 | with an allow-list, the pick's public IP is a dotted quad that some piece of the text allows |
| Selection.LastNotFirst | aws_ec2_assign_elastic_ip/__init__.py:107-131 | of two unbound addresses and no allow-list, the second is taken |
| Selection.AddressesOfInstanceMembers | aws_ec2_assign_elastic_ip/__init__.py:146 | the instance-id filter keeps exactly the addresses bound to that instance |
| Selection.HasAssociatedAddressIff | aws_ec2_assign_elastic_ip/__init__.py:139-148 | the instance already has an address iff some address of the account names it |
| Assign.ExitCode | aws_ec2_assign_elastic_ip/__init__.py:55-101 | the status is 1 exactly for "no address" and "association failed", and 0 otherwise |
| Assign.AssociationFor | aws_ec2_assign_elastic_ip/__init__.py:88-97 | the call names the address by public IP iff its domain is "standard", and by allocation id otherwise |
| Assign.Run | aws_ec2_assign_elastic_ip/__init__.py:48-71 | the step-by-step run ends in `RunOutcome` |
| Assign.RunCallsAssociateOnlyWhenItShould | aws_ec2_assign_elastic_ip/__init__.py:55-71 | one association call is made iff the instance has no address, there is a pick, and it is not a dry run; the call names the pick, which is unbound and allowed |
| Assign.RunExitCode | aws_ec2_assign_elastic_ip/__init__.py:55-101 | the run exits with 1 iff the instance had no address and either nothing was picked or the call failed |
| Assign.RunIsIdempotent | aws_ec2_assign_elastic_ip/__init__.py:55-58 | after a successful association, a second run finds the instance's address and ends with exit 0 and no call |

## Left out

- Logging setup and every log call (lines 20-23 and throughout): no behaviour beyond output.
- Instance metadata, region and the EC2 connection (lines 25-45, 51). The instance id is a parameter.
- `get_all_addresses` is an input sequence in API order. The source calls it twice, once filtered on `instance-id` and once unfiltered. The model uses one snapshot for both, so changes to the pool between the two calls are not modelled.
- Whether `associate_address` raises is a boolean input. Its effect on the account is modelled only by `Assign.AfterAssociation`, which binds the addresses the call names, for the idempotence lemma.
- `sys.exit` becomes an `Outcome` value with its exit status.
- The exit-2 path taken when `netaddr.IPNetwork` raises (lines 176-181) is not modelled. The CIDR pattern has already accepted the token, so the block always exists. The model computes the block directly (network address and size) instead of calling netaddr.
- `command_line_options.py` is not part of this model. Its options (`--ips`, `--aws-access-key`, no dry-run flag) do not match the attributes `__init__.py` reads (`valid_ips`, `access_key`, `dry_run`). The allow-list text and the dry-run switch are parameters here.
- Races between instances competing for the same pool are not modelled (no concurrency in one run).
- Python 2 regex details outside the two anchored patterns: the text is stripped before matching, so `$` matching before a final newline never comes into play.
