/** The decoders of a DHCP response against encoders that follow section 2 of RFC 2132 and the
    "Classless Route Option Format" section of RFC 3442. */
module DhcpTheorems {
  import opened Common
  import opened Bits
  import opened Dhcp

  // ----- Octets and numbers -----

  lemma {:induction false} SliceOfSlice(s: seq<byte>, j: nat, n: nat, a: nat, b: nat)
    requires a <= b <= n && j + n <= |s|
    ensures s[j + a..j + b] == s[j..j + n][a..b]
  {
    var part := s[j..j + n];
    forall i | 0 <= i < b - a
      ensures s[j + a..j + b][i] == part[a..b][i]
    {
      assert part[a..b][i] == part[a + i] == s[j + a + i];
    }
  }

  /** The number an octet string stands for. */
  function BigEndian(data: seq<byte>): nat {
    if data == [] then 0 else BigEndian(data[..|data| - 1]) * 256 + data[|data| - 1]
  }

  /** The octets of `part` stand in the message at offset j. */
  ghost predicate At(response: seq<byte>, j: nat, part: seq<byte>) {
    j + |part| <= |response| && forall i :: 0 <= i < |part| ==> part[i] == response[j + i]
  }

  lemma {:induction false} AtSplit(response: seq<byte>, j: nat, a: seq<byte>, b: seq<byte>)
    requires At(response, j, a + b)
    ensures At(response, j, a) && At(response, j + |a|, b)
  {
    assert (a + b)[0..|a|] == a && (a + b)[|a|..|a| + |b|] == b;
    SliceOfSlice(response, j, |a| + |b|, 0, |a|);
    SliceOfSlice(response, j, |a| + |b|, |a|, |a| + |b|);
  }

  lemma {:induction false} UnpackAt(response: seq<byte>, j: nat, part: seq<byte>)
    requires At(response, j, part)
    ensures Unpack(response, j, |part|) == Ok(BigEndian(part))
    decreases |part|
  {
    if part != [] {
      var n := |part| - 1;
      assert part == part[..n] + [part[n]];
      AtSplit(response, j, part[..n], [part[n]]);
      UnpackAt(response, j, part[..n]);
    }
  }

  lemma {:induction false} BigEndianConcat(a: seq<byte>, b: seq<byte>)
    ensures BigEndian(a + b) == Shl(BigEndian(a), 8 * |b|) + BigEndian(b)
    ensures BigEndian(b) < Pow2(8 * |b|)
    decreases |b|
  {
    if b == [] {
      assert a + b == a;
    } else {
      var init := b[..|b| - 1];
      BigEndianConcat(a, init);
      assert (a + b)[..|a + b| - 1] == a + init;
      assert 8 * |b| == 8 * |init| + 8;
      ShlOctet(BigEndian(a), 8 * |init|);
      PowOctet(8 * |init|);
    }
  }

  lemma {:induction false} PowOctet(n: nat)
    ensures Pow2(n + 8) == 256 * Pow2(n)
  {
    assert Pow2(n + 4) == 16 * Pow2(n) by {
      assert Pow2(n + 2) == 4 * Pow2(n);
    }
    assert Pow2(n + 8) == 16 * Pow2(n + 4) by {
      assert Pow2(n + 6) == 4 * Pow2(n + 4);
    }
  }

  lemma {:induction false} Pow2OfWidth(w: nat)
    requires w == 32
    ensures Pow2(w) == 0x1_0000_0000
  {
    var n: nat := w - 32;
    PowOctet(n);
    PowOctet(n + 8);
    PowOctet(n + 16);
    PowOctet(n + 24);
  }

  /** The mask is as many ones as the prefix has bits, followed by zeros. */
  lemma {:induction false} MaskMeaning(bits: nat)
    requires bits <= 32
    ensures MaskOf(bits) == Shl(Pow2(bits) - 1, 32 - bits)
  {
    Pow2OfWidth(bits + (32 - bits));
    ShiftedOnes(bits, 32 - bits, ALL_ONES);
  }

  lemma {:induction false} AddressBelow(a: seq<byte>)
    requires |a| == 4
    ensures BigEndian(a) < 0x1_0000_0000
  {
    BigEndianConcat([], a);
    Pow2OfWidth(8 * |a|);
  }

  /** Shifting the first k octets of an address into place clears the others. */
  lemma {:induction false} LeadingOctets(net: seq<byte>, k: nat)
    requires |net| == 4 && k <= 4
    ensures Shl(BigEndian(net[..k]), 32 - k * 8) == ClearLow(BigEndian(net), 32 - k * 8)
  {
    assert net == net[..k] + net[k..] && 8 * |net[k..]| == 32 - k * 8;
    BigEndianConcat(net[..k], net[k..]);
    Parts(BigEndian(net), BigEndian(net[..k]), BigEndian(net[k..]), 32 - k * 8);
  }

  lemma {:induction false} MaskClears(x: nat, m: nat, bits: nat)
    requires bits <= 32 && x < 0x1_0000_0000 && m <= 32 - bits
    ensures And(ClearLow(x, m), MaskOf(bits)) == ClearLow(x, 32 - bits)
  {
    MaskMeaning(bits);
    ClearLowBound(x, m);
    Pow2OfWidth(bits + (32 - bits));
    AndHighBits(ClearLow(x, m), bits, 32 - bits);
    ClearLowTwice(x, m, 32 - bits);
  }

  // ----- Classless routes -----

  /** A route as RFC 3442 describes it: prefix length, destination and router addresses. */
  datatype Classless = Classless(bits: nat, destination: seq<byte>, router: seq<byte>) {
    ghost predicate Valid() {
      bits <= 32 && |destination| == 4 && |router| == 4
    }
  }

  /** Width of the mask, significant octets of the destination, router. */
  function EncodeRoute(d: Classless): seq<byte>
    requires d.Valid()
  {
    [d.bits] + d.destination[..(d.bits + 7) / 8] + d.router
  }

  /** The destination with the bits outside the prefix cleared, the mask, and the router. */
  function MeaningOf(d: Classless): Route
    requires d.Valid()
  {
    Route(ClearLow(BigEndian(d.destination), 32 - d.bits), Shl(Pow2(d.bits) - 1, 32 - d.bits), BigEndian(d.router))
  }

  lemma {:induction false} NetworkIsMasked(destination: seq<byte>, bits: nat)
    requires |destination| == 4 && bits <= 32
    ensures NetworkOf(BigEndian(destination[..(bits + 7) / 8]), bits) == ClearLow(BigEndian(destination), 32 - bits)
  {
    var k := (bits + 7) / 8;
    LeadingOctets(destination, k);
    AddressBelow(destination);
    MaskClears(BigEndian(destination), 32 - k * 8, bits);
  }

  lemma {:induction false} DecodeFrom(response: seq<byte>, j: nat, k: nat, net: nat, gateway: nat)
    requires j < |response| && response[j] <= 32 && k == (response[j] + 7) / 8
    requires Unpack(response, j + 1, k) == Ok(net) && Unpack(response, j + 1 + k, 4) == Ok(gateway)
    ensures Reads(response, j, Route(NetworkOf(net, response[j]), MaskOf(response[j]), gateway), j + 5 + k)
  {
  }

  lemma {:induction false} PartsOf(response: seq<byte>, j: nat, d: Classless)
    requires d.Valid() && At(response, j, EncodeRoute(d))
    ensures At(response, j, [d.bits]) && At(response, j + 1, d.destination[..(d.bits + 7) / 8])
    ensures At(response, j + 1 + (d.bits + 7) / 8, d.router)
  {
    var octets := d.destination[..(d.bits + 7) / 8];
    AtSplit(response, j, [d.bits] + octets, d.router);
    AtSplit(response, j, [d.bits], octets);
  }

  /** The parts of a descriptor, found in the message, are what the decoder reads. */
  lemma {:induction false} PartsAreRead(response: seq<byte>, j: nat, d: Classless, k: nat)
    requires d.Valid() && At(response, j, EncodeRoute(d)) && k == (d.bits + 7) / 8
    ensures j < |response| && response[j] == d.bits
    ensures Unpack(response, j + 1, k) == Ok(BigEndian(d.destination[..k]))
    ensures Unpack(response, j + 1 + k, 4) == Ok(BigEndian(d.router))
  {
    PartsOf(response, j, d);
    assert [d.bits][0] == response[j + 0];
    UnpackAt(response, j + 1, d.destination[..k]);
    UnpackAt(response, j + 1 + k, d.router);
  }

  lemma {:induction false} MeaningParts(d: Classless)
    requires d.Valid()
    ensures MeaningOf(d)
         == Route(NetworkOf(BigEndian(d.destination[..(d.bits + 7) / 8]), d.bits), MaskOf(d.bits), BigEndian(d.router))
    ensures |EncodeRoute(d)| == 5 + (d.bits + 7) / 8
  {
    NetworkIsMasked(d.destination, d.bits);
    MaskMeaning(d.bits);
  }

  /** The decoder reads this route at offset j and goes on at `next`. */
  ghost predicate Reads(response: seq<byte>, j: nat, route: Route, next: nat) {
    DecodeRoute(response, j) == Ok((route, next))
  }

  lemma {:induction false} DescriptorMeaning(response: seq<byte>, j: nat, d: Classless)
    requires d.Valid() && At(response, j, EncodeRoute(d))
    ensures Reads(response, j, MeaningOf(d), j + |EncodeRoute(d)|)
  {
    var k := (d.bits + 7) / 8;
    PartsAreRead(response, j, d, k);
    DecodeFrom(response, j, k, BigEndian(d.destination[..k]), BigEndian(d.router));
    MeaningParts(d);
  }

  ghost predicate AllValid(ds: seq<Classless>) {
    forall i :: 0 <= i < |ds| ==> ds[i].Valid()
  }

  function EncodeRoutes(ds: seq<Classless>): seq<byte>
    requires AllValid(ds)
  {
    if ds == [] then [] else EncodeRoute(ds[0]) + EncodeRoutes(ds[1..])
  }

  function MeaningsOf(ds: seq<Classless>): seq<Route>
    requires AllValid(ds)
  {
    if ds == [] then [] else [MeaningOf(ds[0])] + MeaningsOf(ds[1..])
  }

  ghost predicate RoutesAt(response: seq<byte>, j: nat, ds: seq<Classless>)
    requires AllValid(ds)
    decreases |ds|
  {
    ds == [] ||
    (Reads(response, j, MeaningOf(ds[0]), j + |EncodeRoute(ds[0])|)
     && RoutesAt(response, j + |EncodeRoute(ds[0])|, ds[1..]))
  }

  lemma {:induction false} RoutesAreThere(response: seq<byte>, j: nat, ds: seq<Classless>)
    requires AllValid(ds) && At(response, j, EncodeRoutes(ds))
    ensures RoutesAt(response, j, ds)
    decreases |ds|
  {
    if ds != [] {
      AtSplit(response, j, EncodeRoute(ds[0]), EncodeRoutes(ds[1..]));
      DescriptorMeaning(response, j, ds[0]);
      RoutesAreThere(response, j + |EncodeRoute(ds[0])|, ds[1..]);
    }
  }

  lemma {:induction false} RoutesDecoded(response: seq<byte>, j: nat, end: nat, ds: seq<Classless>)
    requires AllValid(ds) && RoutesAt(response, j, ds) && end == j + |EncodeRoutes(ds)|
    ensures DecodeRoutes(response, j, end) == Ok(MeaningsOf(ds))
    decreases |ds|
  {
    if ds != [] {
      RoutesDecoded(response, j + |EncodeRoute(ds[0])|, end, ds[1..]);
    }
  }

  /** Every list of classless routes is decoded to exactly its masked networks, masks and routers. */
  lemma {:induction false} RoutesRoundTrip(response: seq<byte>, j: nat, end: nat, ds: seq<Classless>)
    requires AllValid(ds) && At(response, j, EncodeRoutes(ds)) && end == j + |EncodeRoutes(ds)|
    ensures DecodeRoutes(response, j, end) == Ok(MeaningsOf(ds))
  {
    RoutesAreThere(response, j, ds);
    RoutesDecoded(response, j, end, ds);
  }

  /** The route whose descriptor is the k + 5 octets at offset j. */
  lemma {:induction false} RouteAt(response: seq<byte>, j: nat, k: nat) returns (d: Classless)
    requires k <= 4 && j + 5 + k <= |response| && response[j] <= 32 && k == (response[j] + 7) / 8
    ensures d.Valid() && EncodeRoute(d) == response[j..j + 5 + k]
  {
    var octets := response[j + 1..j + 1 + k];
    var padding: seq<byte> := seq(4 - k, i => 0);
    d := Classless(response[j], octets + padding, response[j + 1 + k..j + 5 + k]);
    assert d.destination[..k] == octets;
  }

  lemma {:induction false} DecodedIsInside(response: seq<byte>, j: nat)
    requires DecodeRoute(response, j).Ok?
    ensures j < |response| && response[j] <= 32 && j + 5 + (response[j] + 7) / 8 <= |response|
  {
    assert Unpack(response, j + 1 + (response[j] + 7) / 8, 4).Ok?;
  }

  lemma {:induction false} DecodedRouteWasEncoded(response: seq<byte>, j: nat) returns (d: Classless, next: nat)
    requires DecodeRoute(response, j).Ok?
    ensures j < next <= |response| && d.Valid() && EncodeRoute(d) == response[j..next]
    ensures DecodeRoute(response, j) == Ok((MeaningOf(d), next))
  {
    DecodedIsInside(response, j);
    var k := (response[j] + 7) / 8;
    next := j + 5 + k;
    d := RouteAt(response, j, k);
    DescriptorMeaning(response, j, d);
  }

  lemma {:induction false} ConsRoutes(response: seq<byte>, j: nat, next: nat, d: Classless, rest: seq<Classless>)
    requires d.Valid() && AllValid(rest) && j <= next <= next + |EncodeRoutes(rest)| <= |response|
    requires EncodeRoute(d) == response[j..next]
    requires response[next..next + |EncodeRoutes(rest)|] == EncodeRoutes(rest)
    ensures AllValid([d] + rest) && MeaningsOf([d] + rest) == [MeaningOf(d)] + MeaningsOf(rest)
    ensures j + |EncodeRoutes([d] + rest)| == next + |EncodeRoutes(rest)|
    ensures response[j..next + |EncodeRoutes(rest)|] == EncodeRoutes([d] + rest)
  {
    assert ([d] + rest)[1..] == rest;
    var stop := next + |EncodeRoutes(rest)|;
    assert response[j..stop] == response[j..next] + response[next..stop];
  }

  /** Conversely, whatever is decoded without error was an encoding of some list of routes, read from
      the given offset up to the end of the option, or past it by part of the last route. */
  lemma {:induction false} DecodedRoutesWereEncoded(response: seq<byte>, j: nat, end: nat) returns (ds: seq<Classless>)
    requires DecodeRoutes(response, j, end).Ok? && j < end
    ensures AllValid(ds) && MeaningsOf(ds) == DecodeRoutes(response, j, end).value
    ensures end <= j + |EncodeRoutes(ds)| <= |response| && response[j..j + |EncodeRoutes(ds)|] == EncodeRoutes(ds)
    decreases end - j
  {
    var d, next := DecodedRouteWasEncoded(response, j);
    var rest: seq<Classless> := [];
    if next < end {
      rest := DecodedRoutesWereEncoded(response, next, end);
    }
    ds := [d] + rest;
    ConsRoutes(response, j, next, d, rest);
  }

  // ----- Options -----

  /** An option of section 2 of RFC 2132: one the agent decodes, or another with its code. */
  datatype Opt =
    | RoutesOption(ds: seq<Classless>)
    | RouterOption(data: seq<byte>)
    | EndpointOption(data: seq<byte>)
    | OtherOption(code: byte, data: seq<byte>)
  {
    ghost predicate Valid() {
      && (RoutesOption? ==> AllValid(ds))
      && (OtherOption? ==> code !in {OPTION_ROUTES, OPTION_ROUTER, OPTION_ENDPOINT, OPTION_END})
      && |Payload(this)| < 256
    }
  }

  ghost function Payload(o: Opt): seq<byte> {
    if !o.RoutesOption? then o.data else if AllValid(o.ds) then EncodeRoutes(o.ds) else []
  }

  ghost function CodeOf(o: Opt): byte {
    match o
    case RoutesOption(_) => OPTION_ROUTES
    case RouterOption(_) => OPTION_ROUTER
    case EndpointOption(_) => OPTION_ENDPOINT
    case OtherOption(code, _) => code
  }

  /** Code, length, payload. */
  ghost function EncodeOption(o: Opt): seq<byte>
    requires o.Valid()
  {
    [CodeOf(o), |Payload(o)|] + Payload(o)
  }

  ghost predicate AllOptionsValid(os: seq<Opt>) {
    forall i :: 0 <= i < |os| ==> os[i].Valid()
  }

  ghost function EncodeOptions(os: seq<Opt>): seq<byte>
    requires AllOptionsValid(os)
  {
    if os == [] then [] else EncodeOption(os[0]) + EncodeOptions(os[1..])
  }

  /** The four octets of an address; a payload of another length is no address. */
  ghost function AddressOf(data: seq<byte>): Option<seq<nat>> {
    if |data| == 4 then Some(data) else None
  }

  ghost function Finding(o: Opt, found: Response): Response
    requires o.Valid()
  {
    match o
    case RoutesOption(ds) => found.(routes := Some(MeaningsOf(ds)))
    case RouterOption(data) => found.(gateway := AddressOf(data))
    case EndpointOption(data) => found.(endpoint := AddressOf(data))
    case OtherOption(_, _) => found
  }

  /** A later option of the same kind replaces what an earlier one gave. */
  ghost function Findings(os: seq<Opt>, found: Response): Response
    requires AllOptionsValid(os)
    decreases |os|
  {
    if os == [] then found else Findings(os[1..], Finding(os[0], found))
  }

  /** Shifting a number right past its lower part and masking gives the octet above that part. */
  lemma {:induction false} OctetAt(x: nat, n: nat, upper: nat, octet: byte, lower: nat)
    requires x == Shl(upper * 256 + octet, n) + lower && lower < Pow2(n)
    ensures And(Shr(x, n), 0xFF) == octet
  {
    Parts(x, upper * 256 + octet, lower, n);
    ShlOctet(upper, 0);
    PowOctet(0);
    AndOnes(upper * 256 + octet, 8);
    Parts(upper * 256 + octet, upper, octet, 8);
  }

  lemma {:induction false} ShlOctets(x: nat, n: nat)
    ensures Shl(x, n + 8) == x * 256 ==> Shl(x, n + 16) == x * 0x1_0000 && Shl(x, n + 24) == x * 0x100_0000
    ensures Pow2(n + 8) == 256 ==> Pow2(n + 16) == 0x1_0000 && Pow2(n + 24) == 0x100_0000
  {
    ShlOctet(x, n + 8);
    ShlOctet(x, n + 16);
    PowOctet(n + 8);
    PowOctet(n + 16);
  }

  lemma {:induction false} DottedOctets(x: nat, a: byte, b: byte, c: byte, d: byte)
    requires x == ((a * 256 + b) * 256 + c) * 256 + d
    ensures Dotted(x) == [a, b, c, d]
  {
    var ab, abc := a * 256 + b, (a * 256 + b) * 256 + c;
    forall y: nat
      ensures Shl(y, 8) == y * 256 && Pow2(8) == 256
    {
      ShlOctet(y, 0);
      PowOctet(0);
    }
    ShlOctets(a, 0);
    ShlOctets(ab, 0);
    OctetAt(x, 24, 0, a, (b * 256 + c) * 256 + d);
    OctetAt(x, 16, a, b, c * 256 + d);
    OctetAt(x, 8, ab, c, d);
    OctetAt(x, 0, abc, d, 0);
    assert Shr(x, 0) == x;
  }

  lemma {:induction false} DottedIsTheOctets(data: seq<byte>)
    requires |data| == 4
    ensures Dotted(BigEndian(data)) == data
  {
    var three, two, one := data[..3], data[..2], data[..1];
    assert three[..2] == two && two[..1] == one && one[..0] == [];
    assert BigEndian(one) == data[0];
    assert BigEndian(two) == BigEndian(one) * 256 + data[1];
    assert BigEndian(three) == BigEndian(two) * 256 + data[2];
    DottedOctets(BigEndian(data), data[0], data[1], data[2], data[3]);
  }

  /** An option whole in the message: the walk sees its code, its length and its payload. */
  ghost predicate OptionAt(response: seq<byte>, i: nat, o: Opt) {
    && o.Valid() && At(response, i + 2, Payload(o))
    && response[i] == CodeOf(o) && response[i + 1] == |Payload(o)|
  }

  lemma {:induction false} AddressAt(response: seq<byte>, i: nat, data: seq<byte>)
    requires At(response, i + 2, data)
    ensures DecodeAddress(response, i, |data|) == AddressOf(data)
  {
    if |data| == 4 {
      UnpackAt(response, i + 2, data);
      DottedIsTheOctets(data);
    }
  }

  lemma {:induction false} WalkOverRoutes(response: seq<byte>, i: nat, n: nat, routes: seq<Route>, found: Response)
    requires i + 2 + n <= |response| && response[i] == OPTION_ROUTES && response[i + 1] == n
    requires DecodeRoutes(response, i + 2, i + 2 + n) == Ok(routes)
    ensures Walk(response, i, found) == Walk(response, i + 2 + n, found.(routes := Some(routes)))
  {
    assert i + n + 2 == i + 2 + n;
  }

  lemma {:induction false} RoutesDecode(response: seq<byte>, i: nat, ds: seq<Classless>, n: nat, found: Response)
    requires AllValid(ds) && n == |EncodeRoutes(ds)| && At(response, i + 2, EncodeRoutes(ds))
    requires response[i] == OPTION_ROUTES && response[i + 1] == n
    ensures Walk(response, i, found) == Walk(response, i + 2 + n, found.(routes := Some(MeaningsOf(ds))))
  {
    RoutesRoundTrip(response, i + 2, i + 2 + n, ds);
    WalkOverRoutes(response, i, n, MeaningsOf(ds), found);
  }

  lemma {:induction false} WalkOverOther(response: seq<byte>, i: nat, o: Opt, found: Response)
    requires OptionAt(response, i, o) && !o.RoutesOption?
    ensures Walk(response, i, found) == Walk(response, i + 2 + |o.data|, Finding(o, found))
  {
    AddressAt(response, i, o.data);
  }

  lemma {:induction false} WalkOverOption(response: seq<byte>, i: nat, o: Opt, found: Response)
    requires OptionAt(response, i, o)
    ensures Walk(response, i, found) == Walk(response, i + 2 + |Payload(o)|, Finding(o, found))
  {
    match o {
      case RoutesOption(ds) => RoutesDecode(response, i, ds, |Payload(o)|, found);
      case _ => WalkOverOther(response, i, o, found);
    }
  }

  lemma {:induction false} OptionIsThere(response: seq<byte>, i: nat, o: Opt)
    requires o.Valid() && At(response, i, EncodeOption(o))
    ensures OptionAt(response, i, o)
  {
    var head: seq<byte> := [CodeOf(o), |Payload(o)|];
    AtSplit(response, i, head, Payload(o));
    assert head[0] == response[i + 0] && head[1] == response[i + 1];
  }

  ghost predicate OptionsAt(response: seq<byte>, i: nat, os: seq<Opt>)
    decreases |os|
  {
    os == [] || (OptionAt(response, i, os[0]) && OptionsAt(response, i + 2 + |Payload(os[0])|, os[1..]))
  }

  lemma {:induction false} OptionsAreThere(response: seq<byte>, i: nat, os: seq<Opt>)
    requires AllOptionsValid(os) && At(response, i, EncodeOptions(os))
    ensures OptionsAt(response, i, os)
    decreases |os|
  {
    if os != [] {
      AtSplit(response, i, EncodeOption(os[0]), EncodeOptions(os[1..]));
      OptionIsThere(response, i, os[0]);
      OptionsAreThere(response, i + 2 + |Payload(os[0])|, os[1..]);
    }
  }

  /** The walk lands on each option in turn and gives the last decode of each kind. */
  lemma {:induction false} WalkOverOptions(response: seq<byte>, i: nat, end: nat, os: seq<Opt>, found: Response)
    requires AllOptionsValid(os) && OptionsAt(response, i, os) && end == i + |EncodeOptions(os)|
    ensures Walk(response, i, found) == Walk(response, end, Findings(os, found))
    decreases |os|
  {
    if os != [] {
      WalkOverOption(response, i, os[0], found);
      WalkOverOptions(response, i + 2 + |Payload(os[0])|, end, os[1..], Finding(os[0], found));
    }
  }

  lemma {:induction false} WalkEnds(response: seq<byte>, i: nat, found: Response)
    requires i >= |response| || response[i] == OPTION_END
    ensures Walk(response, i, found) == Ok(found)
  {
  }

  /** For every list of options after a 240-octet header, closed by an end option or by the end of the
      message, whatever follows: the parser gives the last decode of each kind, and no error. */
  lemma {:induction false} ResponseRoundTrip(header: seq<byte>, os: seq<Opt>, rest: seq<byte>)
    requires |header| == FIRST_OPTION && AllOptionsValid(os) && (rest == [] || rest[0] == OPTION_END)
    ensures Walk(header + EncodeOptions(os) + rest, FIRST_OPTION, NOTHING_FOUND) == Ok(Findings(os, NOTHING_FOUND))
  {
    var response, code := header + EncodeOptions(os) + rest, EncodeOptions(os);
    assert At(response, FIRST_OPTION, code);
    OptionsAreThere(response, FIRST_OPTION, os);
    WalkOverOptions(response, FIRST_OPTION, FIRST_OPTION + |code|, os, NOTHING_FOUND);
    WalkEnds(response, FIRST_OPTION + |code|, Findings(os, NOTHING_FOUND));
  }

  // ----- Pads -----

  ghost predicate PadsAt(response: seq<byte>, i: nat, n: nat) {
    i + n <= |response| && forall j :: i <= j < i + n ==> response[j] == 0
  }

  /** Where a walk that meets n pads goes on: a pad (code 0, section 3.1 of RFC 2132, without a length octet) is taken
      for an option whose length is the next octet. */
  function AfterPads(response: seq<byte>, i: nat, n: nat): nat {
    if n % 2 == 0 then i + n else i + n + 1 + LengthAt(response, i + n - 1)
  }

  /** Pads are skipped in pairs; an odd pad takes the octet after it for a length. */
  lemma {:induction false} WalkOverPads(response: seq<byte>, i: nat, n: nat, found: Response)
    requires PadsAt(response, i, n)
    ensures Walk(response, i, found) == Walk(response, AfterPads(response, i, n), found)
    ensures AfterPads(response, i, n) == i + n <==> n % 2 == 0
    decreases n
  {
    if n >= 2 {
      assert response[i] == 0 && response[i + 1] == 0;
      WalkOverPads(response, i + 2, n - 2, found);
    } else if n == 1 {
      assert response[i] == 0;
    }
  }

  /** Any number of pads after the header: an even number changes nothing. */
  lemma {:induction false} EvenPadsAreHarmless(header: seq<byte>, pads: seq<byte>, os: seq<Opt>, rest: seq<byte>)
    requires |header| == FIRST_OPTION && (forall i :: 0 <= i < |pads| ==> pads[i] == 0) && |pads| % 2 == 0
    requires AllOptionsValid(os) && (rest == [] || rest[0] == OPTION_END)
    ensures Walk(header + pads + EncodeOptions(os) + rest, FIRST_OPTION, NOTHING_FOUND)
         == Ok(Findings(os, NOTHING_FOUND))
  {
    var response, i, code := header + pads + EncodeOptions(os) + rest, FIRST_OPTION + |pads|, EncodeOptions(os);
    assert PadsAt(response, FIRST_OPTION, |pads|);
    WalkOverPads(response, FIRST_OPTION, |pads|, NOTHING_FOUND);
    assert At(response, i, code);
    OptionsAreThere(response, i, os);
    WalkOverOptions(response, i, i + |code|, os, NOTHING_FOUND);
    WalkEnds(response, i + |code|, Findings(os, NOTHING_FOUND));
  }

  /** An odd number of pads makes the walk miss the router that follows: it goes on in the middle of the address, and
      fails there only if it takes the third octet for the code of the routes option. */
  lemma {:induction false} PadHidesRouter(header: seq<byte>, pads: seq<byte>, a: byte, b: byte, c: byte, d: byte)
    requires |header| == FIRST_OPTION && (forall i :: 0 <= i < |pads| ==> pads[i] == 0) && |pads| % 2 == 1
    ensures var response := header + pads + [OPTION_ROUTER, 4, a, b, c, d, OPTION_END];
            var r := Walk(response, FIRST_OPTION, NOTHING_FOUND);
            (r.Ok? ==> r.value.gateway == None) && (c != OPTION_ROUTES ==> r.Ok?)
  {
    var tail := [OPTION_ROUTER, 4, a, b, c, d, OPTION_END];
    var response, i := header + pads + tail, FIRST_OPTION + |pads|;
    assert forall k :: 0 <= k < |tail| ==> response[i + k] == tail[k];
    assert PadsAt(response, FIRST_OPTION, |pads|) && LengthAt(response, i - 1) == 3;
    WalkOverPads(response, FIRST_OPTION, |pads|, NOTHING_FOUND);
    assert response[i + 4] == c && response[i + 5] == d && response[i + 6] == OPTION_END;
    LastOption(response, i + 4, NOTHING_FOUND);
  }

  /** An option code right before the last octet but one finds no address behind it. */
  lemma {:induction false} LastOption(response: seq<byte>, i: nat, found: Response)
    requires |response| == i + 3 && response[i + 2] == OPTION_END && found.gateway == None
    ensures var r := Walk(response, i, found);
            (r.Ok? ==> r.value.gateway == None) && (response[i] != OPTION_ROUTES ==> r.Ok?)
  {
    var next := i + LengthAt(response, i) + 2;
    forall f: Response ensures Walk(response, next, f) == Ok(f) {}
  }
}
