/**
 * The operator's allow-list (`_valid_ips`): a comma-separated string of
 * dotted quads and CIDR blocks, turned into the list of addresses the
 * instance may take, or None for "any address".
 */
module AllowList {
  import opened Wrappers
  import opened Text
  import opened Ipv4

  /**
   * What one stripped token adds to the list: a dotted quad itself, a CIDR
   * block its host addresses, anything else nothing at all.
   */
  function TokenIps(token: string): seq<string>
  {
    if IsIpv4Text(token) then [token]
    else if IsCidrText(token) then CidrHosts(token)
    else []
  }

  /** What one comma-separated piece adds to the list: the contribution of its stripped text. */
  function PieceIps(piece: string): seq<string>
  {
    TokenIps(Strip(piece))
  }

  /** The lists f gives for each piece, concatenated in the order of the pieces. */
  function ConcatMap(f: string -> seq<string>, pieces: seq<string>): seq<string>
  {
    if pieces == [] then []
    else ConcatMap(f, pieces[..|pieces| - 1]) + f(pieces[|pieces| - 1])
  }

  /** The result of `_valid_ips` for the allow-list `text`: None when nothing was collected. */
  function ValidIpsOf(text: string): Option<seq<string>>
  {
    var ips := ConcatMap(PieceIps, Split(text, ','));
    if ips == [] then None else Some(ips)
  }

  /**
   * `_valid_ips`: split on commas, strip each piece, keep a dotted quad as
   * written, expand a CIDR block address by address skipping those ending
   * in .0 or .255, ignore anything else; an empty list means "any".
   */
  method ValidIps(text: string) returns (r: Option<seq<string>>)
    ensures r == ValidIpsOf(text)
  {
    var pieces := Split(text, ',');
    var ips: seq<string> := [];
    var i := 0;
    while i < |pieces|
      invariant 0 <= i <= |pieces|
      invariant ips == ConcatMap(PieceIps, pieces[..i])
    {
      var added := ExpandToken(Strip(pieces[i]));
      ips := ips + added;
      ConcatMapStep(PieceIps, pieces, i);
      i := i + 1;
    }
    assert pieces[..|pieces|] == pieces;
    if ips != [] {
      return Some(ips);
    }
    return None;
  }

  /**
   * The body of the loop of `_valid_ips` for one stripped piece: a dotted
   * quad is kept as written, a CIDR block is expanded, anything else adds
   * nothing.
   */
  method ExpandToken(ip: string) returns (added: seq<string>)
    ensures added == TokenIps(ip)
  {
    if IsIpv4Text(ip) {
      added := [ip];
    } else if IsCidrText(ip) {
      added := ExpandBlock(CidrAddress(ip), CidrPrefix(ip));
    } else {
      added := [];
    }
  }

  /**
   * A CIDR token whose address denotes x and whose prefix length is n: the
   * host addresses of the /n block holding x, network address first.
   */
  method ExpandBlock(x: Ip, n: nat) returns (hosts: seq<string>)
    requires n <= 32
    ensures hosts == BlockHosts(x, n)
  {
    var first := NetworkAddress(x, n);
    hosts := ExpandRange(first, first + BlockSize(n));
  }

  /**
   * The inner loop of `_valid_ips` over a CIDR block, whose addresses run
   * from first up to (not including) last: every address in ascending
   * order, keeping those whose last octet is neither 0 nor 255.
   */
  method ExpandRange(first: int, last: int) returns (hosts: seq<string>)
    requires 0 <= first <= last <= 0x1_0000_0000
    ensures hosts == RangeHosts(first, last)
  {
    hosts := [];
    ghost var kept: seq<Ip> := [];
    var cidrIp := first;
    while cidrIp < last
      invariant first <= cidrIp <= last
      invariant kept == HostsBetween(first, cidrIp)
      invariant hosts == FormatAll(kept)
    {
      // the last octet of the address: .0 and .255 are skipped
      var fourth := cidrIp % 256;
      if fourth != 0 && fourth != 255 {
        FormatAllSnoc(kept, cidrIp);
        hosts := hosts + [Format(cidrIp)];
        kept := kept + [cidrIp];
      }
      cidrIp := cidrIp + 1;
    }
  }

  /** Formatting a list with one more address appends that address's dotted quad. */
  lemma FormatAllSnoc(xs: seq<Ip>, x: Ip)
    ensures FormatAll(xs + [x]) == FormatAll(xs) + [Format(x)]
  {
    assert (xs + [x])[..|xs|] == xs;
  }

  /** One more piece appends its own list. */
  lemma ConcatMapStep(f: string -> seq<string>, pieces: seq<string>, i: nat)
    requires i < |pieces|
    ensures ConcatMap(f, pieces[..i + 1]) == ConcatMap(f, pieces[..i]) + f(pieces[i])
  {
    assert pieces[..i + 1][..i] == pieces[..i];
  }

  /** ConcatMap distributes over concatenation of the pieces. */
  lemma {:induction false} ConcatMapAppend(f: string -> seq<string>, xs: seq<string>, ys: seq<string>)
    ensures ConcatMap(f, xs + ys) == ConcatMap(f, xs) + ConcatMap(f, ys)
  {
    if ys == [] {
      assert xs + ys == xs;
    } else {
      var all, init, last := xs + ys, ys[..|ys| - 1], ys[|ys| - 1];
      assert all[..|all| - 1] == xs + init;
      assert all[|all| - 1] == last;
      ConcatMapAppend(f, xs, init);
      calc {
        ConcatMap(f, all);
        ConcatMap(f, xs + init) + f(last);
        (ConcatMap(f, xs) + ConcatMap(f, init)) + f(last);
        ConcatMap(f, xs) + (ConcatMap(f, init) + f(last));
        ConcatMap(f, xs) + ConcatMap(f, ys);
      }
    }
  }

  lemma ConcatMapSingle(f: string -> seq<string>, piece: string)
    ensures ConcatMap(f, [piece]) == f(piece)
  {
    assert [piece][..0] == [];
  }

  /** A piece's list sits between the lists of the pieces before it and those after it. */
  lemma ConcatMapAt(f: string -> seq<string>, xs: seq<string>, piece: string, ys: seq<string>)
    ensures ConcatMap(f, xs + [piece] + ys) == ConcatMap(f, xs) + f(piece) + ConcatMap(f, ys)
  {
    ConcatMapAppend(f, xs + [piece], ys);
    ConcatMapAppend(f, xs, [piece]);
    ConcatMapSingle(f, piece);
  }

  /** ConcatMap is empty exactly when f gives the empty list for every piece. */
  lemma {:induction false} ConcatMapEmpty(f: string -> seq<string>, pieces: seq<string>)
    ensures ConcatMap(f, pieces) == [] <==> forall i | 0 <= i < |pieces| :: f(pieces[i]) == []
  {
    if pieces != [] {
      var init := pieces[..|pieces| - 1];
      ConcatMapEmpty(f, init);
      assert forall i | 0 <= i < |init| :: init[i] == pieces[i];
    }
  }

  /** An element is in ConcatMap exactly when f puts it in the list of some piece. */
  lemma {:induction false} ConcatMapMembers(f: string -> seq<string>, pieces: seq<string>, x: string)
    ensures x in ConcatMap(f, pieces) <==> exists i | 0 <= i < |pieces| :: x in f(pieces[i])
  {
    if pieces != [] {
      var init := pieces[..|pieces| - 1];
      ConcatMapMembers(f, init, x);
      assert forall i | 0 <= i < |init| :: init[i] == pieces[i];
    }
  }

  /**
   * Token `token` (already stripped) lets address y through: a dotted quad
   * denotes y itself; a CIDR block holds y, and y does not end in .0 or .255.
   */
  predicate Allows(token: string, y: Ip)
  {
    if IsIpv4Text(token) then Parse(token) == y
    else IsCidrText(token) && InBlock(y, CidrAddress(token), CidrPrefix(token)) && IsHostAddress(y)
  }

  /** The dotted quad of y is among a token's contribution exactly when the token allows y. */
  lemma TokenIpsMembers(token: string, y: Ip)
    ensures Format(y) in TokenIps(token) <==> Allows(token, y)
  {
    if IsIpv4Text(token) {
      ParseFormat(token);
      FormatParse(y);
    } else if IsCidrText(token) {
      CidrHostsMembers(token, y);
    }
  }

  /** A token contributes only dotted quads the address pattern accepts. */
  lemma TokenIpsWellFormed(token: string)
    ensures forall k | 0 <= k < |TokenIps(token)| :: IsIpv4Text(TokenIps(token)[k])
  {
    if !IsIpv4Text(token) && IsCidrText(token) {
      CidrHostsAscending(token);
    }
  }

  /** A piece that is a dotted quad once stripped is kept as written, at its place in the list. */
  lemma PlainPieceKept(xs: seq<string>, piece: string, ys: seq<string>)
    requires IsIpv4Text(Strip(piece))
    ensures ConcatMap(PieceIps, xs + [piece] + ys)
         == ConcatMap(PieceIps, xs) + [Strip(piece)] + ConcatMap(PieceIps, ys)
  {
    ConcatMapAt(PieceIps, xs, piece, ys);
  }

  /** A CIDR piece contributes its block's host addresses, at its place in the list. */
  lemma CidrPieceExpanded(xs: seq<string>, piece: string, ys: seq<string>)
    requires !IsIpv4Text(Strip(piece)) && IsCidrText(Strip(piece))
    ensures ConcatMap(PieceIps, xs + [piece] + ys)
         == ConcatMap(PieceIps, xs) + CidrHosts(Strip(piece)) + ConcatMap(PieceIps, ys)
  {
    ConcatMapAt(PieceIps, xs, piece, ys);
  }

  /** A piece that is neither a dotted quad nor a CIDR block, once stripped, leaves the result as if it were absent. */
  lemma UnrecognisedPieceIgnored(xs: seq<string>, piece: string, ys: seq<string>)
    requires !IsIpv4Text(Strip(piece)) && !IsCidrText(Strip(piece))
    ensures ConcatMap(PieceIps, xs + [piece] + ys) == ConcatMap(PieceIps, xs + ys)
  {
    ConcatMapAt(PieceIps, xs, piece, ys);
    ConcatMapAppend(PieceIps, xs, ys);
  }

  /** No piece, once stripped, is a dotted quad or a CIDR block holding a host address. */
  predicate NoPieceContributes(pieces: seq<string>)
  {
    forall i | 0 <= i < |pieces| :: PieceIps(pieces[i]) == []
  }

  /** Some piece, once stripped, allows address y. */
  predicate SomePieceAllows(pieces: seq<string>, y: Ip)
  {
    exists i | 0 <= i < |pieces| :: Allows(Strip(pieces[i]), y)
  }

  /**
   * `_valid_ips` answers None, meaning "any address", exactly when no piece
   * contributes an address; otherwise the list it returns is not empty.
   */
  lemma ValidIpsIsNoneIff(text: string)
    ensures ValidIpsOf(text).None? <==> NoPieceContributes(Split(text, ','))
    ensures ValidIpsOf(text).Some? ==> |ValidIpsOf(text).value| > 0
  {
    ConcatMapEmpty(PieceIps, Split(text, ','));
  }

  /** The dotted quad of y is collected exactly when some piece, stripped, allows y. */
  lemma CollectIpsMembers(pieces: seq<string>, y: Ip)
    ensures Format(y) in ConcatMap(PieceIps, pieces) <==> SomePieceAllows(pieces, y)
  {
    ConcatMapMembers(PieceIps, pieces, Format(y));
    forall i | 0 <= i < |pieces|
      ensures Format(y) in PieceIps(pieces[i]) <==> Allows(Strip(pieces[i]), y)
    {
      TokenIpsMembers(Strip(pieces[i]), y);
    }
  }

  /** Everything collected is a dotted quad the address pattern accepts. */
  lemma CollectIpsWellFormed(pieces: seq<string>)
    ensures forall e | e in ConcatMap(PieceIps, pieces) :: IsIpv4Text(e)
  {
    forall e | e in ConcatMap(PieceIps, pieces)
      ensures IsIpv4Text(e)
    {
      ConcatMapMembers(PieceIps, pieces, e);
      var i :| 0 <= i < |pieces| && e in PieceIps(pieces[i]);
      TokenIpsWellFormed(Strip(pieces[i]));
    }
  }

  /**
   * When `_valid_ips` returns a list, a string is in it exactly when it is
   * the dotted quad of an address that some stripped piece allows.
   */
  lemma ValidIpsMembers(text: string, ip: string)
    requires ValidIpsOf(text).Some?
    ensures ip in ValidIpsOf(text).value <==>
      IsIpv4Text(ip) && SomePieceAllows(Split(text, ','), Parse(ip))
  {
    var pieces := Split(text, ',');
    CollectIpsWellFormed(pieces);
    if IsIpv4Text(ip) {
      ParseFormat(ip);
      CollectIpsMembers(pieces, Parse(ip));
    }
  }
}
