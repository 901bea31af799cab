/**
 * URIs and option lists (mcoap/mc_uri.c, section 6.4 of RFC 7252). A string is its bytes without the
 * terminator, and a pointer into one is the part it points at.
 */
module Uris {
  import opened Bytes
  import opened OptionCodec
  import opened OptionOrder
  import OptionsList

  type Text = seq<byte>

  const COLON: byte := 58
  const SLASH: byte := 47
  const QUESTION: byte := 63
  const AMPERSAND: byte := 38
  const OPENING: byte := 91
  const CLOSING: byte := 93

  const COAP: Text := [99, 111, 97, 112]
  const COAPS: Text := [99, 111, 97, 112, 115]

  const URI_HOST: u16 := 3
  const URI_PORT: u16 := 7
  const URI_PATH: u16 := 11
  const URI_QUERY: u16 := 15
  const DEFAULT_PORT: u32 := 5683

  // ---------- Scanners ----------

  // strcspn.
  function SpanTo(s: Text, stops: Text): (n: nat)
    ensures n <= |s| && (n < |s| ==> s[n] in stops)
    ensures forall i :: 0 <= i < n ==> s[i] !in stops
  {
    if s == [] || s[0] in stops then 0
    else
      var n := SpanTo(s[1..], stops);
      assert forall i :: 0 < i < 1 + n ==> s[i] == s[1..][i - 1];
      1 + n
  }

  // advanceto: from a stop it goes to the end of the string, whatever follows.
  function AdvanceTo(s: Text, stops: Text): (n: nat)
    ensures n <= |s|
  {
    var n := SpanTo(s, stops);
    if n == 0 then |s| else n
  }

  function Scheme(uri: Text): Option<Text> {
    var n := SpanTo(uri, [COLON]);
    if n == |uri| then None else Some(uri[..n])
  }

  predicate ValidScheme(scheme: Option<Text>) {
    scheme == Some(COAP) || scheme == Some(COAPS)
  }

  function GetIp6Host(s: Text): Option<Text>
    requires s != [] && s[0] == OPENING
  {
    var n := SpanTo(s[1..], [CLOSING]);
    if n == 0 || n == |s| - 1 then None else Some(s[1..1 + n])
  }

  function GetAddress(s: Text): (host: Option<Text>)
    ensures host.Some? ==> HostWidth(s, host.value) <= |s|
  {
    if s != [] && s[0] == OPENING then GetIp6Host(s) else Some(s[..SpanTo(s, [COLON, SLASH])])
  }

  // How much of s its host takes up, brackets included.
  function HostWidth(s: Text, host: Text): nat {
    if s != [] && s[0] == OPENING then |host| + 2 else |host|
  }

  predicate IsDigit(c: byte) {
    48 <= c <= 57
  }

  function DigitsValue(s: Text, acc: nat): nat {
    if s == [] || !IsDigit(s[0]) then acc else DigitsValue(s[1..], 10 * acc + (s[0] as int - 48))
  }

  function SkipBlanks(s: Text): Text {
    if s != [] && (s[0] == 32 || 9 <= s[0] <= 13) then SkipBlanks(s[1..]) else s
  }

  function Atoi(s: Text): int {
    var t := SkipBlanks(s);
    if t == [] then 0
    else if t[0] == 45 then -(DigitsValue(t[1..], 0) as int)
    else if t[0] == 43 then DigitsValue(t[1..], 0)
    else DigitsValue(t, 0)
  }

  // The number wraps into the source's 32 bits.
  function GetPort(s: Text): u32 {
    if s == [] || s[0] != COLON then DEFAULT_PORT
    else
      var port := Atoi(s[1..][..SpanTo(s[1..], [SLASH])]) % 0x1_0000_0000;
      if port == 0 then DEFAULT_PORT else port
  }

  // What the loop over getpath collects, and where it stops.
  function Paths(s: Text): (r: (seq<Text>, Text))
    ensures |r.1| <= |s|
  {
    if s == [] || s[0] != SLASH then ([], s)
    else
      var t := s[1..];
      var (paths, rest) := Paths(t[AdvanceTo(t, [SLASH, QUESTION])..]);
      ([t[..SpanTo(t, [SLASH, QUESTION])]] + paths, rest)
  }

  function Queries(s: Text): seq<Text> {
    if s == [] || (s[0] != QUESTION && s[0] != AMPERSAND) then []
    else
      var t := s[1..];
      [t[..SpanTo(t, [AMPERSAND])]] + Queries(t[AdvanceTo(t, [AMPERSAND])..])
  }

  // What the library takes a URI to say.
  datatype Parts = Parts(host: Text, port: u32, paths: seq<Text>, queries: seq<Text>)

  // What follows the scheme, if it is one of CoAP's.
  function AfterScheme(uri: Text): Option<Text> {
    if !ValidScheme(Scheme(uri)) then None
    else
      var s := uri[AdvanceTo(uri, [COLON])..];
      if [COLON, SLASH, SLASH] <= s then Some(s[3..]) else None
  }

  function Split(uri: Text): Option<Parts> {
    var after := AfterScheme(uri);
    if after.None? then None
    else
      var host := GetAddress(after.value);
      if host.None? || host.value == [] then None
      else
        var rest := after.value[HostWidth(after.value, host.value)..];
        Some(SplitRest(host.value, rest))
  }

  // What follows the host: port, path and query.
  function SplitRest(host: Text, rest: Text): Parts {
    var (paths, more) := Paths(rest[AdvanceTo(rest, [SLASH, QUESTION])..]);
    Parts(host, GetPort(rest), paths, Queries(more))
  }

  // ---------- Options ----------

  // mc_option_init_uint32: one, two or four bytes in network order.
  function UintBytes(value: u32): seq<byte> {
    if value <= 0xff then [value] else if value <= 0xffff then Network16(value) else Network32(value)
  }

  // mc_option_as_uint32. Any length but 1 and 2 is read as four bytes; None where they are not all there.
  function AsUint(value: seq<byte>): Option<u32> {
    if |value| == 1 then Some(value[0])
    else if |value| == 2 then Some(SwapU16(Load16(value)))
    else if |value| >= 4 then Some(SwapU32(Load32(value[..4])))
    else None
  }

  function Labelled(num: u16, values: seq<Text>): (opts: seq<Opt>)
    ensures |opts| == |values|
    ensures forall i :: 0 <= i < |values| ==> opts[i] == Opt(num, values[i])
  {
    seq(|values|, i requires 0 <= i < |values| => Opt(num, values[i]))
  }

  function HostOptions(host: Text, port: u32): seq<Opt> {
    [Opt(URI_HOST, host), Opt(URI_PORT, UintBytes(port))]
  }

  // same says whether a host and a port are those of the message's destination; then they are elided.
  function OptionsOf(p: Parts, same: (Text, u32) -> bool): seq<Opt> {
    (if same(p.host, p.port) then [] else HostOptions(p.host, p.port)) + Labelled(URI_PATH, p.paths) + Labelled(URI_QUERY, p.queries)
  }

  // ---------- What the options say ----------

  // What a list of options says of the parts of a URI, whose options were put together with some extra ones. Number 3
  // is the host, 7 the port, 11 a segment of the path, 15 a query; under every other number there are the extra ones alone.
  ghost predicate Says(list: seq<Opt>, p: Parts, same: (Text, u32) -> bool, extra: seq<Opt>) {
    && (if same(p.host, p.port) then Under(list, 3, [], extra) && Under(list, 7, [], extra)
        else Under(list, 3, [p.host], extra) && exists port :: AsUint(port) == Some(p.port) && Under(list, 7, [port], extra))
    && Under(list, 11, p.paths, extra) && Under(list, 15, p.queries, extra)
    && forall num: u16 :: num != 3 && num != 7 && num != 11 && num != 15 ==> Under(list, num, [], extra)
  }

  ghost predicate Under(list: seq<Opt>, num: u16, values: seq<Text>, extra: seq<Opt>) {
    multiset(ValuesUnder(list, num)) == multiset(values) + multiset(ValuesUnder(extra, num))
  }

  // It says so in order: first the URI's, as they stand in it, then the extra ones.
  ghost predicate SaysInOrder(list: seq<Opt>, p: Parts, same: (Text, u32) -> bool, extra: seq<Opt>) {
    && Says(list, p, same, extra)
    && ValuesUnder(list, 11) == p.paths + ValuesUnder(extra, 11) && ValuesUnder(list, 15) == p.queries + ValuesUnder(extra, 15)
    && forall num: u16 :: num != 3 && num != 7 && num != 11 && num != 15 ==> ValuesUnder(list, num) == ValuesUnder(extra, num)
  }

  lemma {:induction false} LabelledValues(num: u16, values: seq<Text>, n: u16)
    ensures ValuesUnder(Labelled(num, values), n) == if n == num then values else []
    decreases |values|
  {
    hide Labelled;
    if values == [] {
      assert Labelled(num, values) == [];
    } else {
      LabelledValues(num, values[1..], n);
      assert Labelled(num, values)[1..] == Labelled(num, values[1..]);
    }
  }

  lemma HostValues(p: Parts, n: u16)
    ensures ValuesUnder(HostOptions(p.host, p.port), n) == if n == 3 then [p.host] else if n == 7 then [UintBytes(p.port)] else []
  {
    var h := HostOptions(p.host, p.port);
    assert h == [h[0]] + [h[1]];
    ValuesConcat([h[0]], [h[1]], n);
    ValuesOfOne(h[0], n);
    ValuesOfOne(h[1], n);
    hide ValuesUnder, UintBytes;
  }

  // What stands under a number in the options of a URI.
  function PartsUnder(p: Parts, same: (Text, u32) -> bool, n: u16): seq<Text> {
    if n == 3 || n == 7 then if same(p.host, p.port) then [] else if n == 3 then [p.host] else [UintBytes(p.port)]
    else if n == 11 then p.paths else if n == 15 then p.queries else []
  }

  lemma OptionsUnder(p: Parts, same: (Text, u32) -> bool, n: u16)
    ensures ValuesUnder(OptionsOf(p, same), n) == PartsUnder(p, same, n)
  {
    hide ValuesUnder, HostOptions, Labelled;
    var front := if same(p.host, p.port) then [] else HostOptions(p.host, p.port);
    ValuesConcat(front + Labelled(URI_PATH, p.paths), Labelled(URI_QUERY, p.queries), n);
    ValuesConcat(front, Labelled(URI_PATH, p.paths), n);
    LabelledValues(URI_PATH, p.paths, n);
    LabelledValues(URI_QUERY, p.queries, n);
    HostValues(p, n);
    NoValues(n);
  }

  lemma NoValues(n: u16)
    ensures ValuesUnder([], n) == []
  {
  }

  lemma SaysFrom(list: seq<Opt>, p: Parts, same: (Text, u32) -> bool, extra: seq<Opt>)
    requires forall n: u16 :: Under(list, n, PartsUnder(p, same, n), extra)
    ensures Says(list, p, same, extra)
  {
    UintRoundTrip(p.port);
    hide Under, UintBytes, AsUint;
    assert Under(list, 3, PartsUnder(p, same, 3), extra) && Under(list, 7, PartsUnder(p, same, 7), extra);
    assert Under(list, 11, PartsUnder(p, same, 11), extra) && Under(list, 15, PartsUnder(p, same, 15), extra);
    forall n: u16 | n != 3 && n != 7 && n != 11 && n != 15 ensures Under(list, n, [], extra) {
      assert Under(list, n, PartsUnder(p, same, n), extra);
    }
    assert !same(p.host, p.port) ==> AsUint(UintBytes(p.port)) == Some(p.port) && Under(list, 7, [UintBytes(p.port)], extra);
  }

  /** However they are sorted, the options of a URI and the extra ones say what the parts of the URI are. */
  lemma SortingSays(p: Parts, same: (Text, u32) -> bool, extra: seq<Opt>, list: seq<Opt>)
    requires IsSorting(OptionsOf(p, same) + extra, list)
    ensures Says(list, p, same, extra)
  {
    hide ValuesUnder, OptionsOf, PartsUnder;
    forall n: u16 ensures Under(list, n, PartsUnder(p, same, n), extra) {
      ValuesPermuted(OptionsOf(p, same) + extra, list, n);
      ValuesConcat(OptionsOf(p, same), extra, n);
      OptionsUnder(p, same, n);
    }
    SaysFrom(list, p, same, extra);
  }

  lemma SortingSaysAlone(p: Parts, same: (Text, u32) -> bool, list: seq<Opt>)
    requires IsSorting(OptionsOf(p, same), list)
    ensures Sorted(list) && Says(list, p, same, [])
  {
    assert OptionsOf(p, same) + [] == OptionsOf(p, same);
    SortingSays(p, same, [], list);
    hide Says, OptionsOf;
  }

  /** Sorted stably, they say it in order. */
  lemma StableSays(p: Parts, same: (Text, u32) -> bool, extra: seq<Opt>, list: seq<Opt>)
    requires IsSorting(OptionsOf(p, same) + extra, list) && IsStableSorting(OptionsOf(p, same) + extra, list)
    ensures SaysInOrder(list, p, same, extra)
  {
    hide ValuesUnder, OptionsOf, Says, IsSorting, IsStableSorting;
    SortingSays(p, same, extra, list);
    forall n: u16 ensures ValuesUnder(list, n) == PartsUnder(p, same, n) + ValuesUnder(extra, n) {
      ValuesKept(OptionsOf(p, same) + extra, list, n);
      ValuesConcat(OptionsOf(p, same), extra, n);
      OptionsUnder(p, same, n);
    }
    assert forall n: u16 :: [] + ValuesUnder(extra, n) == ValuesUnder(extra, n);
  }

  // ---------- The option array is large enough ----------

  predicate IsDelimiter(c: byte) {
    c == SLASH || c == QUESTION || c == AMPERSAND
  }

  function Delimiters(s: Text): nat {
    if s == [] then 0 else Delimiters(s[1..]) + if IsDelimiter(s[0]) then 1 else 0
  }

  lemma {:induction false} DelimitersOfSuffix(s: Text, n: nat)
    requires n <= |s|
    ensures Delimiters(s[n..]) <= Delimiters(s)
    decreases n
  {
    if n > 0 {
      DelimitersOfSuffix(s[1..], n - 1);
      assert s[n..] == s[1..][n - 1..];
    } else {
      assert s[0..] == s;
    }
  }

  lemma {:induction false} QueriesUseDelimiters(s: Text)
    ensures |Queries(s)| <= Delimiters(s)
    decreases |s|
  {
    if s != [] && (s[0] == QUESTION || s[0] == AMPERSAND) {
      var t := s[1..];
      var n := AdvanceTo(t, [AMPERSAND]);
      QueriesUseDelimiters(t[n..]);
      DelimitersOfSuffix(t, n);
    }
  }

  /** Every path and every query uses up a delimiter of its own, so the estimate covers them, for any text at all. */
  lemma {:induction false} EstimateCovers(s: Text)
    ensures |Paths(s).0| + |Queries(Paths(s).1)| <= Delimiters(s)
    decreases |s|
  {
    if s != [] && s[0] == SLASH {
      var t := s[1..];
      var n := AdvanceTo(t, [SLASH, QUESTION]);
      EstimateCovers(t[n..]);
      DelimitersOfSuffix(t, n);
    } else {
      QueriesUseDelimiters(s);
    }
  }

  // ---------- The scanner ----------

  // advanceby, from the position at.
  method AdvanceBy(str: Text, at: nat, prefix: Text) returns (r: Option<nat>)
    requires at <= |str|
    ensures r == if prefix <= str[at..] then Some(at + |prefix|) else None
  {
    var i := 0;
    while i < |prefix|
      invariant i <= |prefix| && at + i <= |str| && prefix[..i] == str[at..][..i]
    {
      if at + i == |str| || str[at + i] != prefix[i] {
        assert i < |str[at..]| ==> str[at..][i] != prefix[i];
        return None;
      }
      i := i + 1;
    }
    r := Some(at + i);
  }

  method EstimateNopts(str: Text) returns (nopts: nat)
    ensures nopts == Delimiters(str)
  {
    nopts := 0;
    var pos := 0;
    while pos < |str|
      invariant pos <= |str| && nopts + Delimiters(str[pos..]) == Delimiters(str)
    {
      if str[pos] == SLASH || str[pos] == QUESTION || str[pos] == AMPERSAND {
        nopts := nopts + 1;
      }
      assert str[pos..][1..] == str[pos + 1..];
      pos := pos + 1;
    }
  }

  // getpath and getquery at a position.
  function GetPath(s: Text): Option<Text> {
    if s == [] || s[0] != SLASH then None else Some(s[1..][..SpanTo(s[1..], [SLASH, QUESTION])])
  }

  function GetQuery(s: Text): Option<Text> {
    if s == [] || (s[0] != QUESTION && s[0] != AMPERSAND) then None else Some(s[1..][..SpanTo(s[1..], [AMPERSAND])])
  }

  lemma PathsOn(s: Text)
    ensures GetPath(s).None? ==> Paths(s) == ([], s)
    ensures GetPath(s).Some? ==>
              |s| > 0 &&
              var (paths, rest) := Paths(s[1..][AdvanceTo(s[1..], [SLASH, QUESTION])..]);
              Paths(s) == ([GetPath(s).value] + paths, rest)
  {
  }

  lemma QueriesOn(s: Text)
    ensures GetQuery(s).None? ==> Queries(s) == []
    ensures GetQuery(s).Some? ==>
              |s| > 0 && Queries(s) == [GetQuery(s).value] + Queries(s[1..][AdvanceTo(s[1..], [AMPERSAND])..])
  {
  }

  lemma LabelledSnoc(num: u16, done: seq<Text>, value: Text, rest: seq<Text>)
    ensures Labelled(num, done + [value]) == Labelled(num, done) + [Opt(num, value)]
    ensures done + ([value] + rest) == done + [value] + rest
  {
  }

  // The loop over getpath. It stops, and every option it writes is one of those Paths finds.
  method FillPaths(options: array<Opt>, start: nat, uri: Text, from: nat) returns (iopt: nat, current: nat)
    requires from <= |uri| && start + |Paths(uri[from..]).0| <= options.Length
    modifies options
    ensures current <= |uri| && uri[current..] == Paths(uri[from..]).1
    ensures iopt == start + |Paths(uri[from..]).0|
    ensures options[..iopt] == old(options[..start]) + Labelled(URI_PATH, Paths(uri[from..]).0)
  {
    hide Paths, GetPath, AdvanceTo;
    iopt, current := start, from;
    ghost var done: seq<Text>, all := [], Paths(uri[from..]);
    assert done + all.0 == all.0;
    var path := GetPath(uri[current..]);
    while path.Some?
      invariant current <= |uri| && path == GetPath(uri[current..])
      invariant all == (done + Paths(uri[current..]).0, Paths(uri[current..]).1)
      invariant iopt == start + |done| <= options.Length
      invariant options[..iopt] == old(options[..start]) + Labelled(URI_PATH, done)
      decreases |uri| - current
    {
      ghost var s := uri[current..];
      PathsOn(s);
      options[iopt] := Opt(URI_PATH, path.value);
      iopt := iopt + 1;
      current := current + 1;
      assert s[1..] == uri[current..];
      current := current + AdvanceTo(uri[current..], [SLASH, QUESTION]);
      LabelledSnoc(URI_PATH, done, path.value, Paths(uri[current..]).0);
      done := done + [path.value];
      path := GetPath(uri[current..]);
    }
    PathsOn(uri[current..]);
  }

  // The loop over getquery.
  method FillQueries(options: array<Opt>, start: nat, uri: Text, from: nat) returns (iopt: nat)
    requires from <= |uri| && start + |Queries(uri[from..])| <= options.Length
    modifies options
    ensures iopt == start + |Queries(uri[from..])|
    ensures options[..iopt] == old(options[..start]) + Labelled(URI_QUERY, Queries(uri[from..]))
  {
    hide Queries, GetQuery, AdvanceTo;
    iopt := start;
    var current := from;
    ghost var done: seq<Text>, all := [], Queries(uri[from..]);
    assert done + all == all;
    var query := GetQuery(uri[current..]);
    while query.Some?
      invariant current <= |uri| && query == GetQuery(uri[current..])
      invariant all == done + Queries(uri[current..])
      invariant iopt == start + |done| <= options.Length
      invariant options[..iopt] == old(options[..start]) + Labelled(URI_QUERY, done)
      decreases |uri| - current
    {
      ghost var s := uri[current..];
      QueriesOn(s);
      options[iopt] := Opt(URI_QUERY, query.value);
      iopt := iopt + 1;
      current := current + 1;
      assert s[1..] == uri[current..];
      current := current + AdvanceTo(uri[current..], [AMPERSAND]);
      LabelledSnoc(URI_QUERY, done, query.value, Queries(uri[current..]));
      done := done + [query.value];
      query := GetQuery(uri[current..]);
    }
    QueriesOn(uri[current..]);
  }

  /**
   * mc_uri_to_options. None for a URI it cannot take apart; otherwise the options of its parts, in an array
   * sized by the estimate and sorted. same stands for the comparison of addresses: where it holds of host and port
   * they are left out.
   */
  method UriToOptions(same: (Text, u32) -> bool, uri: Text) returns (list: Option<seq<Opt>>)
    ensures list.Some? <==> Split(uri).Some?
    ensures list.Some? ==> Sorted(list.value) && Says(list.value, Split(uri).value, same, [])
    ensures list.Some? ==> IsSorting(OptionsOf(Split(uri).value, same), list.value)
  {
    hide Says, SplitRest, IsSorting, Paths, Queries, GetPort, GetAddress, AdvanceTo, Scheme, ValidScheme;
    var current := 0;
    assert uri[current..] == uri;
    var scheme := Scheme(uri);
    if !ValidScheme(scheme) {
      return None;
    }
    current := AdvanceTo(uri, [COLON]);
    var next := AdvanceBy(uri, current, [COLON, SLASH, SLASH]);
    if next.None? {
      return None;
    }
    assert uri[current..][3..] == uri[next.value..];
    current := next.value;
    var host := GetAddress(uri[current..]);
    if host.None? || |host.value| == 0 {
      return None;
    }
    current := current + HostWidth(uri[current..], host.value);
    list := RestToOptions(same, uri, host.value, current);
    SortingSaysAlone(Split(uri).value, same, list.value);
  }

  // The rest of it, from behind the host on.
  method RestToOptions(same: (Text, u32) -> bool, uri: Text, host: Text, from: nat) returns (list: Option<seq<Opt>>)
    requires from <= |uri|
    ensures list.Some? && IsSorting(OptionsOf(SplitRest(host, uri[from..]), same), list.value)
  {
    hide IsSorting, Paths, Queries, GetPort, AdvanceTo;
    var port := GetPort(uri[from..]);
    var current := from + AdvanceTo(uri[from..], [SLASH, QUESTION]);
    var tail := uri[current..];
    assert tail == uri[from..][AdvanceTo(uri[from..], [SLASH, QUESTION])..];
    EstimateCovers(tail);
    var nopts := EstimateNopts(tail);
    var elided := same(host, port);
    if !elided {
      nopts := nopts + 2;
    }
    var options := new Opt[nopts](_ => Opt(0, []));
    var iopt := 0;
    if !elided {
      options[iopt] := Opt(URI_HOST, host);
      iopt := iopt + 1;
      options[iopt] := Opt(URI_PORT, UintBytes(port));
      iopt := iopt + 1;
    }
    ghost var front := options[..iopt];
    assert front == if elided then [] else HostOptions(host, port);
    iopt, current := FillPaths(options, iopt, uri, current);
    iopt := FillQueries(options, iopt, uri, current);
    OptionsList.OptionsSort(iopt, options);
    list := Some(options[..iopt]);
  }

  // ---------- Integers in options ----------

  /** An integer put into an option is read back from it. */
  lemma UintRoundTrip(value: u32)
    ensures AsUint(UintBytes(value)) == Some(value)
  {
    SwapIsNetworkOrder16(if value <= 0xffff then value else 0);
    SwapIsNetworkOrder32(value);
    assert Network32(value)[..4] == Network32(value);
  }

  // A number in some bytes, big end first.
  function BigEndian(value: seq<byte>): nat {
    if value == [] then 0 else 256 * BigEndian(value[..|value| - 1]) + value[|value| - 1]
  }

  /** One, two or four bytes are read so. */
  lemma AsUintIsBigEndian(value: seq<byte>)
    requires |value| == 1 || |value| == 2 || |value| == 4
    ensures AsUint(value) == Some(BigEndian(value))
  {
    if |value| == 1 {
      BigEndianSnoc([], value[0]);
      assert value == [] + [value[0]];
    } else if |value| == 2 {
      BigEndianTwo(value[0], value[1]);
      TwoAsNumber(value[0], value[1]);
      assert value == [value[0], value[1]];
    } else {
      BigEndianFour(value[0], value[1], value[2], value[3]);
      DigitsOf(value[0], value[1], value[2], value[3]);
      assert value == [value[0], value[1], value[2], value[3]] && value[..4] == value;
      hide SwapU32, BigEndian;
    }
  }

  lemma BigEndianSnoc(s: seq<byte>, b: byte)
    ensures BigEndian(s + [b]) == 256 * BigEndian(s) + b
  {
    assert (s + [b])[..|s|] == s;
  }

  lemma BigEndianTwo(a: byte, b: byte)
    ensures BigEndian([a, b]) == 256 * a as int + b as int
  {
    hide BigEndian;
    NothingAsNumber();
    BigEndianSnoc([], a);
    BigEndianSnoc([a], b);
    assert [] + [a] == [a] && [a] + [b] == [a, b];
  }

  lemma NothingAsNumber()
    ensures BigEndian([]) == 0
  {
  }

  lemma BigEndianFour(a: byte, b: byte, c: byte, d: byte)
    ensures BigEndian([a, b, c, d]) == 16777216 * a as int + 65536 * b as int + 256 * c as int + d as int
  {
    hide BigEndian;
    BigEndianTwo(a, b);
    BigEndianSnoc([a, b], c);
    BigEndianSnoc([a, b, c], d);
    assert [a, b] + [c] == [a, b, c] && [a, b, c] + [d] == [a, b, c, d];
  }

  lemma TwoAsNumber(a: byte, b: byte)
    ensures SwapU16(Load16([a, b])) == 256 * a as int + b as int
  {
    var w: u16 := a as int + 256 * b as int;
    assert w % 256 == a && w / 256 == b;
  }

  // No shorter form would have done.
  predicate CanonicalUint(value: seq<byte>) {
    |value| == 1 || (|value| == 2 && value[0] != 0) || (|value| == 4 && (value[0] != 0 || value[1] != 0))
  }

  /** Bytes that read as an integer are what that integer would be put into an option as exactly when no shorter form exists. */
  lemma UintBytesCanonicalIff(value: seq<byte>)
    requires AsUint(value).Some?
    ensures UintBytes(AsUint(value).value) == value <==> CanonicalUint(value)
  {
    if |value| == 2 {
      TwoBytes(value[0], value[1]);
      assert value == [value[0], value[1]];
    } else if |value| >= 4 {
      FourBytes(value[0], value[1], value[2], value[3]);
      assert value[..4] == [value[0], value[1], value[2], value[3]];
      hide SwapU32, Load32, Network32;
      assert |value| == 4 ==> value[..4] == value;
    }
  }

  lemma TwoBytes(a: byte, b: byte)
    ensures var v := SwapU16(Load16([a, b])); Network16(v) == [a, b] && (v > 0xff <==> a != 0)
  {
    var w: u16 := a as int + 256 * b as int;
    assert w % 256 == a && w / 256 == b;
    var v: u16 := b as int + 256 * a as int;
    assert v % 256 == b && v / 256 == a;
  }

  lemma FourBytes(a: byte, b: byte, c: byte, d: byte)
    ensures var v := SwapU32(Load32([a, b, c, d]));
            Network32(v) == [a, b, c, d] && |Network32(v)| == 4 && (v > 0xffff <==> a != 0 || b != 0)
  {
    DigitsOf(a, b, c, d);
    DigitsOf(d, c, b, a);
    hide SwapU32, Network32;
  }
}
