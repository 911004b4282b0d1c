/** Decoding a DHCP response: the option walk, addresses, and the classless routes of option 249. */
module Dhcp {
  import opened Common
  import opened Bits

  type byte = x: int | 0 <= x < 256

  /** IndexError for reading past the message, ValueError for a negative shift. */
  datatype DecodeError = PastEnd | NegativeShift

  datatype Route = Route(net: nat, mask: nat, gateway: nat)

  const ALL_ONES: nat := 0xFFFF_FFFF

  // ----- Decoding -----

  /** unpack_big_endian: each octet is shifted in from the right. */
  function Unpack(response: seq<byte>, offset: nat, length: nat): Result<nat, DecodeError>
    decreases length
  {
    if length == 0 then Ok(0)
    else
      var upper := Unpack(response, offset, length - 1);
      if upper.Err? then upper
      else if offset + length > |response| then Err(PastEnd)
      else Ok(upper.value * 256 + response[offset + length - 1])
  }

  lemma {:induction false} OctetCount(x: nat)
    ensures And(x, 7) == x % 8 && Shr(x - x % 8, 3) == x / 8
  {
    assert Pow2(3) == 8;
    ShlIsProduct(x / 8, 3);
    AndOnes(x, 3);
    Parts(x, x / 8, x % 8, 3);
    Parts(x - x % 8, x / 8, 0, 3);
  }

  /** The number of octets that hold a prefix: the source clears the low three bits and shifts. */
  function PrefixOctets(bits: nat): (r: nat)
    ensures r == (bits + 7) / 8
  {
    OctetCount(bits + 7);
    Shr(bits + 7 - And(bits + 7, 7), 3)
  }

  function MaskOf(bits: nat): nat
    requires bits <= 32
  {
    And(ALL_ONES, Shl(ALL_ONES, 32 - bits))
  }

  /** The network number: the octets read, shifted into place and masked. */
  function NetworkOf(octets: nat, bits: nat): nat
    requires bits <= 32
  {
    And(Shl(octets, 32 - PrefixOctets(bits) * 8), MaskOf(bits))
  }

  /** One route descriptor at offset j, and the offset after it. */
  function DecodeRoute(response: seq<byte>, j: nat): Result<(Route, nat), DecodeError> {
    if j >= |response| then Err(PastEnd)
    else
      var bits := response[j];
      if bits > 32 then Err(NegativeShift)
      else
        var octets := PrefixOctets(bits);
        var net := Unpack(response, j + 1, octets);
        var gateway := Unpack(response, j + 1 + octets, 4);
        if net.Err? then Err(net.error)
        else if gateway.Err? then Err(gateway.error)
        else Ok((Route(NetworkOf(net.value, bits), MaskOf(bits), gateway.value), j + 1 + octets + 4))
  }

  /** The loop of parse_route: descriptors are read while the offset is before `end`. */
  function DecodeRoutes(response: seq<byte>, j: nat, end: nat): Result<seq<Route>, DecodeError>
    decreases end - j
  {
    if j >= end then Ok([])
    else
      var first := DecodeRoute(response, j);
      if first.Err? then Err(first.error)
      else
        var rest := DecodeRoutes(response, first.value.1, end);
        if rest.Err? then rest else Ok([first.value.0] + rest.value)
  }

  /** int_to_ip4_addr: the four numbers of the dotted form. */
  function Dotted(a: nat): seq<nat> {
    [And(Shr(a, 24), 0xFF), And(Shr(a, 16), 0xFF), And(Shr(a, 8), 0xFF), And(a, 0xFF)]
  }

  /** parse_ip_addr for the option at offset i. */
  function DecodeAddress(response: seq<byte>, i: nat, length: nat): Option<seq<nat>> {
    if i + 5 >= |response| || length != 4 then None
    else
      var address := Unpack(response, i + 2, 4);
      if address.Err? then None else Some(Dotted(address.value))
  }

  // ----- The option walk -----

  const OPTION_ROUTER: byte := 3
  const OPTION_ENDPOINT: byte := 245
  const OPTION_ROUTES: byte := 249
  const OPTION_END: byte := 255
  const FIRST_OPTION: nat := 0xF0

  /** What the walk has gathered so far: endpoint, gateway and routes, each None until found. */
  datatype Response = Response(endpoint: Option<seq<nat>>, gateway: Option<seq<nat>>, routes: Option<seq<Route>>)

  const NOTHING_FOUND := Response(None, None, None)

  function LengthAt(response: seq<byte>, i: nat): nat {
    if i + 1 < |response| then response[i + 1] else 0
  }

  function Walk(response: seq<byte>, i: nat, found: Response): Result<Response, DecodeError>
    decreases |response| - i
  {
    if i >= |response| || response[i] == OPTION_END then Ok(found)
    else
      var length := LengthAt(response, i);
      var next := i + length + 2;
      if response[i] == OPTION_ROUTES then
        var routes := DecodeRoutes(response, i + 2, i + length + 2);
        if routes.Err? then Err(routes.error) else Walk(response, next, found.(routes := Some(routes.value)))
      else if response[i] == OPTION_ROUTER then
        Walk(response, next, found.(gateway := DecodeAddress(response, i, length)))
      else if response[i] == OPTION_ENDPOINT then
        Walk(response, next, found.(endpoint := DecodeAddress(response, i, length)))
      else Walk(response, next, found)
  }

  // ----- The parsers as the source writes them -----

  method UnpackBigEndian(response: seq<byte>, offset: nat, length: nat) returns (r: Result<nat, DecodeError>)
    ensures r == Unpack(response, offset, length)
  {
    var result: nat := 0;
    for i := 0 to length
      invariant Unpack(response, offset, i) == Ok(result)
    {
      if offset + i >= |response| {
        UnpackFails(response, offset, i + 1, length);
        return Err(PastEnd);
      }
      result := result * 256 + response[offset + i];
    }
    return Ok(result);
  }

  lemma {:induction false} UnpackFails(response: seq<byte>, offset: nat, length: nat, more: nat)
    requires length <= more && Unpack(response, offset, length) == Err(PastEnd)
    ensures Unpack(response, offset, more) == Err(PastEnd)
    decreases more
  {
    if length < more {
      UnpackFails(response, offset, length, more - 1);
    }
  }

  method ParseDescriptor(response: seq<byte>, j: nat) returns (r: Result<(Route, nat), DecodeError>)
    ensures r == DecodeRoute(response, j)
  {
    if j >= |response| {
      return Err(PastEnd);
    }
    var bits := response[j];
    if bits > 32 {
      return Err(NegativeShift);
    }
    var octets := PrefixOctets(bits);
    var mask := And(ALL_ONES, Shl(ALL_ONES, 32 - bits));
    var net := UnpackBigEndian(response, j + 1, octets);
    if net.Err? {
      return Err(net.error);
    }
    var gateway := UnpackBigEndian(response, j + 1 + octets, 4);
    if gateway.Err? {
      return Err(gateway.error);
    }
    return Ok((Route(And(Shl(net.value, 32 - octets * 8), mask), mask, gateway.value), j + 1 + octets + 4));
  }

  /** The routes decoded so far followed by the rest, or the error of the rest. */
  function Following(routes: seq<Route>, rest: Result<seq<Route>, DecodeError>): Result<seq<Route>, DecodeError> {
    if rest.Err? then rest else Ok(routes + rest.value)
  }

  lemma {:induction false} FollowingStep(routes: seq<Route>, response: seq<byte>, j: nat, end: nat, route: Route,
                                         next: nat)
    requires j < end && DecodeRoute(response, j) == Ok((route, next))
    ensures Following(routes, DecodeRoutes(response, j, end))
         == Following(routes + [route], DecodeRoutes(response, next, end))
  {
    var rest := DecodeRoutes(response, next, end);
    if rest.Ok? {
      assert routes + ([route] + rest.value) == (routes + [route]) + rest.value;
    }
  }

  method ParseRoute(response: seq<byte>, i: nat, length: nat) returns (r: Result<seq<Route>, DecodeError>)
    ensures r == DecodeRoutes(response, i + 2, i + length + 2)
  {
    var routes: seq<Route> := [];
    var j, end := i + 2, i + length + 2;
    ghost var all := DecodeRoutes(response, j, end);
    assert all.Ok? ==> [] + all.value == all.value;
    while j < end
      invariant all == Following(routes, DecodeRoutes(response, j, end))
      decreases end - j
    {
      var parsed := ParseDescriptor(response, j);
      if parsed.Err? {
        return Err(parsed.error);
      }
      var (route, next) := parsed.value;
      FollowingStep(routes, response, j, end, route, next);
      routes := routes + [route];
      j := next;
    }
    assert routes + [] == routes;
    return Ok(routes);
  }

  method ParseDhcpResponse(response: seq<byte>) returns (r: Result<Response, DecodeError>)
    ensures r == Walk(response, FIRST_OPTION, NOTHING_FOUND)
  {
    var endpoint: Option<seq<nat>>, gateway: Option<seq<nat>>, routes: Option<seq<Route>> := None, None, None;
    var i := FIRST_OPTION;
    while i < |response|
      invariant Walk(response, FIRST_OPTION, NOTHING_FOUND) == Walk(response, i, Response(endpoint, gateway, routes))
      decreases |response| - i
    {
      var option := response[i];
      var length := 0;
      if i + 1 < |response| {
        length := response[i + 1];
      }
      if option == OPTION_END {
        break;
      } else if option == OPTION_ROUTES {
        var parsed := ParseRoute(response, i, length);
        if parsed.Err? {
          return Err(parsed.error);
        }
        routes := Some(parsed.value);
      } else if option == OPTION_ROUTER {
        gateway := DecodeAddress(response, i, length);
      } else if option == OPTION_ENDPOINT {
        endpoint := DecodeAddress(response, i, length);
      }
      i := i + length + 2;
    }
    return Ok(Response(endpoint, gateway, routes));
  }
}
