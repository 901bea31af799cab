/** Which URIs the library takes apart into the parts they were put together from, and which lose some. */
module UriRoundTrip {
  import opened Bytes
  import opened OptionCodec
  import opened OptionOrder
  import opened Uris

  // ---------- Composing ----------

  datatype Uri = Uri(scheme: Text, ip6: bool, host: Text, port: Option<u16>, segments: seq<Text>, queries: seq<Text>)

  predicate Free(s: Text, stops: Text) {
    forall i :: 0 <= i < |s| ==> s[i] !in stops
  }

  predicate AllFree(parts: seq<Text>, stops: Text) {
    forall i :: 0 <= i < |parts| ==> Free(parts[i], stops)
  }

  // Every part is free of the characters that end it, and of the terminator of a C string.
  predicate WellFormed(u: Uri) {
    && (u.scheme == COAP || u.scheme == COAPS)
    && u.host != []
    && (if u.ip6 then Free(u.host, [CLOSING]) else u.host[0] != OPENING && Free(u.host, [COLON, SLASH]))
    && AllFree(u.segments, [SLASH, QUESTION])
    && AllFree(u.queries, [AMPERSAND])
    && Free(u.host, [0]) && AllFree(u.segments, [0]) && AllFree(u.queries, [0])
  }

  function Decimal(n: nat): (r: Text)
    ensures |r| > 0 && forall i :: 0 <= i < |r| ==> IsDigit(r[i])
  {
    if n < 10 then [48 + n] else Decimal(n / 10) + [48 + n % 10]
  }

  function PathText(segments: seq<Text>): Text
    decreases |segments|
  {
    if segments == [] then [] else [SLASH] + segments[0] + PathText(segments[1..])
  }

  function QueryText(lead: byte, queries: seq<Text>): Text
    decreases |queries|
  {
    if queries == [] then [] else [lead] + queries[0] + QueryText(AMPERSAND, queries[1..])
  }

  function Tail(u: Uri): Text {
    PathText(u.segments) + QueryText(QUESTION, u.queries)
  }

  function HostText(u: Uri): Text {
    if u.ip6 then [OPENING] + u.host + [CLOSING] else u.host
  }

  function PortText(u: Uri): Text {
    if u.port.None? then [] else [COLON] + Decimal(u.port.value)
  }

  function Compose(u: Uri): Text {
    u.scheme + [COLON, SLASH, SLASH] + (HostText(u) + (PortText(u) + Tail(u)))
  }

  /** A composed URI is a C string: the terminator does not occur in it. */
  lemma ComposedIsString(u: Uri)
    requires WellFormed(u)
    ensures Free(Compose(u), [0])
  {
    hide Decimal, PathText, QueryText;
    PathTextIsString(u.segments);
    QueryTextIsString(QUESTION, u.queries);
    Joined(PathText(u.segments), QueryText(QUESTION, u.queries));
    PortTextIsString(u);
    hide PortText, Tail;
    Joined(PortText(u), Tail(u));
    Joined(HostText(u), PortText(u) + Tail(u));
    Joined(u.scheme + [COLON, SLASH, SLASH], HostText(u) + (PortText(u) + Tail(u)));
  }

  lemma Joined(a: Text, b: Text)
    requires Free(a, [0]) && Free(b, [0])
    ensures Free(a + b, [0])
  {
  }

  lemma PortTextIsString(u: Uri)
    ensures Free(PortText(u), [0])
  {
    if u.port.Some? {
      assert forall i :: 0 <= i < |Decimal(u.port.value)| ==> IsDigit(Decimal(u.port.value)[i]);
    }
    hide Decimal;
  }

  lemma {:induction false} PathTextIsString(segments: seq<Text>)
    requires AllFree(segments, [0])
    ensures Free(PathText(segments), [0])
    decreases |segments|
  {
    if segments != [] {
      assert forall i :: 0 <= i < |segments[1..]| ==> segments[1..][i] == segments[i + 1];
      PathTextIsString(segments[1..]);
    }
  }

  lemma {:induction false} QueryTextIsString(lead: byte, queries: seq<Text>)
    requires AllFree(queries, [0]) && lead != 0
    ensures Free(QueryText(lead, queries), [0])
    decreases |queries|
  {
    if queries != [] {
      assert forall i :: 0 <= i < |queries[1..]| ==> queries[1..][i] == queries[i + 1];
      QueryTextIsString(AMPERSAND, queries[1..]);
    }
  }

  // What the URI says.
  function Meant(u: Uri): Parts {
    Parts(u.host, if u.port.Some? then u.port.value else 5683, u.segments, u.queries)
  }

  // ---------- Scanners over composed text ----------

  predicate Stopped(s: Text, stops: Text) {
    s == [] || s[0] in stops
  }

  lemma SpanEnds(a: Text, b: Text, stops: Text)
    requires Free(a, stops) && Stopped(b, stops)
    ensures SpanTo(a + b, stops) == |a| && (a + b)[..|a|] == a && (a + b)[|a|..] == b
  {
    var s := a + b;
    assert forall i :: 0 <= i < |a| ==> s[i] == a[i];
    assert b != [] ==> s[|a|] == b[0];
  }

  lemma AdvanceEnds(a: Text, b: Text, stops: Text)
    requires Free(a, stops) && Stopped(b, stops)
    ensures AdvanceTo(a + b, stops) == if a == [] then |b| else |a|
  {
    SpanEnds(a, b, stops);
  }

  // The parts up to the first empty one, which is the last the library sees.
  function UpToEmpty(parts: seq<Text>): seq<Text>
    decreases |parts|
  {
    if parts == [] then [] else if parts[0] == [] then [parts[0]] else [parts[0]] + UpToEmpty(parts[1..])
  }

  predicate NoneEmpty(parts: seq<Text>) {
    forall i :: 0 <= i < |parts| ==> parts[i] != []
  }

  predicate OnlyLastEmpty(parts: seq<Text>) {
    forall i :: 0 <= i < |parts| - 1 ==> parts[i] != []
  }

  lemma {:induction false} UpToEmptyIff(parts: seq<Text>)
    ensures UpToEmpty(parts) == parts <==> OnlyLastEmpty(parts)
    decreases |parts|
  {
    if parts != [] {
      UpToEmptyIff(parts[1..]);
      assert parts == [parts[0]] + parts[1..];
      if OnlyLastEmpty(parts[1..]) && parts[0] != [] {
        assert forall i :: 1 <= i < |parts| - 1 ==> parts[i] == parts[1..][i - 1];
      }
      if OnlyLastEmpty(parts) {
        assert forall i :: 0 <= i < |parts| - 2 ==> parts[1..][i] == parts[i + 1];
      }
    }
  }

  lemma NoneEmptyTail(parts: seq<Text>)
    requires parts != []
    ensures NoneEmpty(parts) <==> parts[0] != [] && NoneEmpty(parts[1..])
  {
    assert forall i :: 1 <= i < |parts| ==> parts[i] == parts[1..][i - 1];
    assert parts == [parts[0]] + parts[1..];
  }

  lemma AllFreeTail(parts: seq<Text>, stops: Text)
    requires AllFree(parts, stops) && parts != []
    ensures Free(parts[0], stops) && AllFree(parts[1..], stops)
  {
    assert forall i :: 0 <= i < |parts[1..]| ==> parts[1..][i] == parts[i + 1];
  }

  lemma QueriesCons(lead: byte, t: Text)
    requires lead == QUESTION || lead == AMPERSAND
    ensures Queries([lead] + t) == [t[..SpanTo(t, [AMPERSAND])]] + Queries(t[AdvanceTo(t, [AMPERSAND])..])
    ensures Queries([]) == []
  {
    assert ([lead] + t)[1..] == t;
  }

  lemma PathsCons(t: Text)
    ensures var (paths, rest) := Paths(t[AdvanceTo(t, [SLASH, QUESTION])..]);
            Paths([SLASH] + t) == ([t[..SpanTo(t, [SLASH, QUESTION])]] + paths, rest)
    ensures Paths([]) == ([], [])
  {
    assert ([SLASH] + t)[1..] == t;
  }

  lemma QueriesStep(lead: byte, query: Text, rest: Text)
    requires Free(query, [AMPERSAND]) && Stopped(rest, [AMPERSAND]) && (lead == QUESTION || lead == AMPERSAND)
    ensures Queries([lead] + query + rest) == [query] + if query == [] then [] else Queries(rest)
  {
    hide *;
    var t := query + rest;
    SpanEnds(query, rest, [AMPERSAND]);
    AdvanceEnds(query, rest, [AMPERSAND]);
    QueriesCons(lead, t);
    assert [lead] + query + rest == [lead] + t && t[|t|..] == [];
    assert [query] + [] == [query];
  }

  lemma PathsStep(segment: Text, rest: Text)
    requires Free(segment, [SLASH, QUESTION]) && Stopped(rest, [SLASH, QUESTION])
    ensures Paths([SLASH] + segment + rest) ==
              if segment == [] then ([segment], []) else ([segment] + Paths(rest).0, Paths(rest).1)
  {
    hide *;
    var t := segment + rest;
    SpanEnds(segment, rest, [SLASH, QUESTION]);
    AdvanceEnds(segment, rest, [SLASH, QUESTION]);
    PathsCons(t);
    assert [SLASH] + segment + rest == [SLASH] + t && t[|t|..] == [];
    assert [segment] + [] == [segment];
  }

  lemma {:induction false} QueriesOfText(lead: byte, queries: seq<Text>)
    requires AllFree(queries, [AMPERSAND]) && (lead == QUESTION || lead == AMPERSAND)
    ensures Queries(QueryText(lead, queries)) == UpToEmpty(queries)
    decreases |queries|
  {
    hide Queries, AllFree, Free;
    if queries == [] {
      QueriesCons(lead, []);
    } else {
      AllFreeTail(queries, [AMPERSAND]);
      QueriesOfText(AMPERSAND, queries[1..]);
      QueriesStep(lead, queries[0], QueryText(AMPERSAND, queries[1..]));
    }
  }

  lemma {:induction false} PathsOfText(segments: seq<Text>, more: Text)
    requires AllFree(segments, [SLASH, QUESTION]) && Stopped(more, [QUESTION])
    ensures Paths(PathText(segments) + more) == (UpToEmpty(segments), if NoneEmpty(segments) then more else [])
    decreases |segments|
  {
    hide AllFree, Free, NoneEmpty, Paths, PathText;
    PathTextCons(segments, more);
    if segments == [] {
      PathsDone(more);
    } else {
      var rest := PathText(segments[1..]) + more;
      AllFreeTail(segments, [SLASH, QUESTION]);
      NoneEmptyTail(segments);
      PathsOfText(segments[1..], more);
      PathsStep(segments[0], rest);
    }
  }

  lemma PathTextCons(segments: seq<Text>, more: Text)
    requires Stopped(more, [QUESTION])
    ensures segments == [] ==> PathText(segments) + more == more
    ensures segments != [] ==>
              var rest := PathText(segments[1..]) + more;
              PathText(segments) + more == [SLASH] + segments[0] + rest && Stopped(rest, [SLASH, QUESTION])
  {
    if segments == [] {
      assert [] + more == more;
    } else {
      Regroup([SLASH] + segments[0], PathText(segments[1..]), more);
      PathTextStarts(segments[1..]);
      AfterText(PathText(segments[1..]), more);
    }
  }

  lemma PathTextStarts(segments: seq<Text>)
    ensures Stopped(PathText(segments), [SLASH])
  {
  }

  lemma AfterText(a: Text, b: Text)
    requires Stopped(a, [SLASH]) && Stopped(b, [QUESTION])
    ensures Stopped(a + b, [SLASH, QUESTION])
  {
    assert a == [] ==> a + b == b;
  }

  lemma PathsDone(more: Text)
    requires Stopped(more, [QUESTION])
    ensures Paths(more) == ([], more) && NoneEmpty([])
  {
  }

  // ---------- Ports ----------

  lemma {:induction false} DigitsOfDecimal(n: nat, rest: Text)
    ensures DigitsValue(Decimal(n) + rest, 0) == DigitsValue(rest, n)
    decreases n
  {
    if n < 10 {
      assert (Decimal(n) + rest)[1..] == rest;
    } else {
      var last := [48 + n % 10];
      DigitsOfDecimal(n / 10, last + rest);
      assert Decimal(n) + rest == Decimal(n / 10) + (last + rest);
      assert (last + rest)[1..] == rest;
    }
  }

  lemma PortOfText(n: u16, tail: Text)
    requires Stopped(tail, [SLASH, QUESTION])
    ensures GetPort([COLON] + Decimal(n) + tail) == if n == 0 then 5683 else n
  {
    hide *;
    var t := Decimal(n) + tail;
    PortCons(t);
    AtoiOfText(n, tail, SpanTo(t, [SLASH]));
    assert [COLON] + Decimal(n) + tail == [COLON] + t;
  }

  lemma PortCons(t: Text)
    ensures GetPort([COLON] + t) == var port := Atoi(t[..SpanTo(t, [SLASH])]) % 0x1_0000_0000;
                                    if port == 0 then 5683 else port
  {
    assert ([COLON] + t)[1..] == t;
  }

  lemma AtoiOfText(n: u16, tail: Text, k: nat)
    requires Stopped(tail, [SLASH, QUESTION]) && k <= |Decimal(n) + tail|
    requires k < |Decimal(n) + tail| ==> (Decimal(n) + tail)[k] == SLASH
    ensures Atoi((Decimal(n) + tail)[..k]) == n
  {
    hide Decimal, DigitsValue;
    var t := Decimal(n) + tail;
    assert forall i :: 0 <= i < |Decimal(n)| ==> t[i] == Decimal(n)[i] && IsDigit(t[i]);
    var rest := t[|Decimal(n)|..k];
    assert t[..k] == Decimal(n) + rest;
    assert rest != [] ==> rest[0] == tail[0];
    DigitsOfDecimal(n, rest);
    NoMoreDigits(rest, n);
    assert t[..k][0] == Decimal(n)[0];
  }

  lemma NoMoreDigits(rest: Text, n: nat)
    requires rest == [] || !IsDigit(rest[0])
    ensures DigitsValue(rest, n) == n
  {
  }

  predicate IsBlank(c: byte) {
    c == 32 || 9 <= c <= 13
  }

  lemma {:induction false} BlanksSkipped(blanks: Text, t: Text)
    requires (forall i :: 0 <= i < |blanks| ==> IsBlank(blanks[i])) && (t == [] || !IsBlank(t[0]))
    ensures SkipBlanks(blanks + t) == t
  {
    if blanks == [] {
      assert blanks + t == t;
    } else {
      assert (blanks + t)[1..] == blanks[1..] + t;
      BlanksSkipped(blanks[1..], t);
    }
  }

  lemma DigitsThenRest(n: nat, rest: Text)
    requires rest == [] || !IsDigit(rest[0])
    ensures DigitsValue(Decimal(n) + rest, 0) == n
  {
    DigitsOfDecimal(n, rest);
    NoMoreDigits(rest, n);
  }

  /** What the C library makes of a number: blanks, a sign if there is one, digits, and it stops at anything else. */
  lemma AtoiReads(blanks: Text, n: nat, rest: Text)
    requires (forall i :: 0 <= i < |blanks| ==> IsBlank(blanks[i])) && (rest == [] || !IsDigit(rest[0]))
    ensures Atoi(blanks + (Decimal(n) + rest)) == n
    ensures Atoi(blanks + ([43] + (Decimal(n) + rest))) == n && Atoi(blanks + ([45] + (Decimal(n) + rest))) == 0 - n
    ensures rest == [] || (rest[0] != 43 && rest[0] != 45 && !IsBlank(rest[0])) ==> Atoi(blanks + rest) == 0
  {
    var t := Decimal(n) + rest;
    assert t[0] == Decimal(n)[0];
    hide Decimal, SkipBlanks;
    DigitsThenRest(n, rest);
    NoMoreDigits(rest, 0);
    hide DigitsValue;
    BlanksSkipped(blanks, t);
    BlanksSkipped(blanks, [43] + t);
    BlanksSkipped(blanks, [45] + t);
    assert ([43] + t)[1..] == t && ([45] + t)[1..] == t;
    if rest == [] || !IsBlank(rest[0]) {
      BlanksSkipped(blanks, rest);
    }
  }

  // ---------- Scheme and host ----------

  lemma SchemeOfText(scheme: Text, s: Text)
    requires scheme == COAP || scheme == COAPS
    ensures AfterScheme(scheme + [COLON, SLASH, SLASH] + s) == Some(s)
  {
    var sep := [COLON, SLASH, SLASH];
    var uri := scheme + (sep + s);
    assert uri == scheme + sep + s;
    SpanEnds(scheme, sep + s, [COLON]);
    AdvanceEnds(scheme, sep + s, [COLON]);
    assert (sep + s)[3..] == s;
  }

  // The host of a composed URI, when what follows it is one of the characters that end it.
  lemma HostOfText(u: Uri, rest: Text)
    requires WellFormed(u) && (u.ip6 || Stopped(rest, [COLON, SLASH]))
    ensures var s := HostText(u) + rest;
            GetAddress(s) == Some(u.host) && HostWidth(s, u.host) <= |s| && s[HostWidth(s, u.host)..] == rest
  {
    var s := HostText(u) + rest;
    if u.ip6 {
      assert s[1..] == u.host + ([CLOSING] + rest);
      SpanEnds(u.host, [CLOSING] + rest, [CLOSING]);
      assert s[1..1 + |u.host|] == s[1..][..|u.host|];
    } else {
      SpanEnds(u.host, rest, [COLON, SLASH]);
    }
  }

  lemma TailParts(u: Uri)
    requires WellFormed(u)
    ensures Stopped(Tail(u), [SLASH, QUESTION])
    ensures Paths(Tail(u)) == (UpToEmpty(u.segments), if NoneEmpty(u.segments) then QueryText(QUESTION, u.queries) else [])
    ensures Queries(QueryText(QUESTION, u.queries)) == UpToEmpty(u.queries)
    ensures u.segments != [] ==> Tail(u)[0] == SLASH
  {
    PathsOfText(u.segments, QueryText(QUESTION, u.queries));
    QueriesOfText(QUESTION, u.queries);
  }

  // ---------- Which texts are taken apart ----------

  // A host can be made out at the front of s: in brackets, or up to a colon or a slash, and not empty.
  predicate StartsWithHost(s: Text) {
    if s != [] && s[0] == 91 then |s| > 1 && s[1] != 93 && 93 in s[1..]
    else s != [] && s[0] != 58 && s[0] != 47
  }

  // coap:// or coaps://, and what follows.
  function CoapRest(uri: Text): Option<Text> {
    if [99, 111, 97, 112, 58, 47, 47] <= uri then Some(uri[7..])
    else if [99, 111, 97, 112, 115, 58, 47, 47] <= uri then Some(uri[8..])
    else None
  }

  /** A URI is taken apart if and only if it starts with one of CoAP's two schemes, spelt in lower case, and a host. */
  lemma SplitIff(uri: Text)
    ensures AfterScheme(uri) == CoapRest(uri)
    ensures Split(uri).Some? <==> CoapRest(uri).Some? && StartsWithHost(CoapRest(uri).value)
  {
    AfterSchemeIs(uri);
    hide AfterScheme, CoapRest, SplitRest;
    if CoapRest(uri).Some? {
      AddressIff(CoapRest(uri).value);
      hide GetAddress, StartsWithHost;
    }
  }

  lemma AddressIff(s: Text)
    ensures GetAddress(s).Some? && GetAddress(s).value != [] <==> StartsWithHost(s)
  {
    if s != [] && s[0] == 91 {
      var n := SpanTo(s[1..], [CLOSING]);
      assert n < |s[1..]| ==> s[1..][n] in [CLOSING];
      assert |s| > 1 ==> s[1..][0] == s[1];
    } else {
      var n := SpanTo(s, [COLON, SLASH]);
      assert n == 0 && s != [] ==> s[n] in [COLON, SLASH];
    }
  }

  lemma AfterSchemeIs(uri: Text)
    ensures AfterScheme(uri) == CoapRest(uri)
  {
    if CoapRest(uri).Some? {
      var scheme := if [99, 111, 97, 112, 58, 47, 47] <= uri then COAP else COAPS;
      assert uri == scheme + [COLON, SLASH, SLASH] + uri[|scheme| + 3..];
      SchemeOfText(scheme, uri[|scheme| + 3..]);
    } else if AfterScheme(uri).Some? {
      SchemeShows(uri);
    }
  }

  lemma SchemeShows(uri: Text)
    requires AfterScheme(uri).Some?
    ensures COAP + [COLON, SLASH, SLASH] <= uri || COAPS + [COLON, SLASH, SLASH] <= uri
  {
    var n := SpanTo(uri, [COLON]);
    assert uri[..n] == COAP || uri[..n] == COAPS;
    assert AdvanceTo(uri, [COLON]) == n;
    assert uri == uri[..n] + uri[n..];
  }

  // ---------- The theorems ----------

  // Nothing swallows the end of the host.
  predicate HostEnds(u: Uri) {
    u.ip6 || u.port.Some? || u.segments != [] || u.queries == []
  }

  // What the library makes of the URI: it sees no path and no query without an explicit port, nothing
  // behind an empty segment or query, and the default port for port 0.
  function Seen(u: Uri): Parts {
    if u.port.None? then Parts(u.host, 5683, [], [])
    else Parts(u.host, if u.port.value == 0 then 5683 else u.port.value,
               UpToEmpty(u.segments), if NoneEmpty(u.segments) then UpToEmpty(u.queries) else [])
  }

  lemma RestWithoutPort(host: Text, tail: Text)
    requires Stopped(tail, [SLASH, QUESTION])
    ensures SplitRest(host, tail) == Parts(host, 5683, [], [])
  {
    AdvanceEnds([], tail, [SLASH, QUESTION]);
    assert [] + tail == tail && tail[|tail|..] == [];
  }

  lemma RestWithPort(host: Text, n: u16, tail: Text)
    requires Stopped(tail, [SLASH, QUESTION])
    ensures SplitRest(host, [COLON] + Decimal(n) + tail) ==
              Parts(host, if n == 0 then 5683 else n, Paths(tail).0, Queries(Paths(tail).1))
  {
    hide Decimal, GetPort, Paths, Queries, SpanTo;
    PortOfText(n, tail);
    assert Free([COLON] + Decimal(n), [SLASH, QUESTION]);
    SpanEnds([COLON] + Decimal(n), tail, [SLASH, QUESTION]);
    AdvanceEnds([COLON] + Decimal(n), tail, [SLASH, QUESTION]);
    hide AdvanceTo, Stopped, Free;
  }

  lemma RestOfText(u: Uri)
    requires WellFormed(u)
    ensures SplitRest(u.host, PortText(u) + Tail(u)) == Seen(u)
  {
    hide WellFormed, SplitRest, Tail, UpToEmpty, NoneEmpty, Paths, Queries, Decimal, Stopped;
    TailParts(u);
    if u.port.None? {
      assert PortText(u) + Tail(u) == Tail(u);
      RestWithoutPort(u.host, Tail(u));
    } else {
      RestWithPort(u.host, u.port.value, Tail(u));
      NothingAsked();
    }
  }

  lemma NothingAsked()
    ensures Queries([]) == []
  {
  }

  /** What splitting a composed URI gives. */
  lemma SplitOfComposed(u: Uri)
    requires WellFormed(u) && HostEnds(u)
    ensures Split(Compose(u)) == Some(Seen(u))
  {
    hide Seen, SplitRest, AfterScheme, Tail, GetAddress, HostWidth;
    var rest := PortText(u) + Tail(u);
    SchemeOfText(u.scheme, HostText(u) + rest);
    TailStarts(u);
    HostOfText(u, rest);
    RestOfText(u);
  }

  lemma TailStarts(u: Uri)
    ensures Stopped(Tail(u), [SLASH, QUESTION]) && (u.segments != [] || u.queries == [] ==> Stopped(Tail(u), [SLASH]))
  {
  }

  // A query straight behind a host name is taken for a part of the name.
  lemma QuerySwallowed(u: Uri)
    requires WellFormed(u) && !HostEnds(u)
    ensures Split(Compose(u)).Some? && |Split(Compose(u)).value.host| > |u.host|
  {
    var s := HostText(u) + (PortText(u) + Tail(u));
    hide AfterScheme, Paths, Queries, GetPort, AdvanceTo, Tail;
    SchemeOfText(u.scheme, s);
    TailAsks(u);
    assert s == u.host + Tail(u);
    assert forall i :: 0 <= i < |u.host| ==> s[i] == u.host[i];
    assert s[|u.host|] == QUESTION && s[0] == u.host[0];
    var n := SpanTo(s, [COLON, SLASH]);
    assert n < |s| ==> s[n] == COLON || s[n] == SLASH;
    assert GetAddress(s) == Some(s[..n]) && n > |u.host|;
  }

  lemma TailAsks(u: Uri)
    requires u.segments == [] && u.queries != []
    ensures |Tail(u)| > 0 && Tail(u)[0] == QUESTION
  {
  }

  predicate Survives(u: Uri) {
    if u.port.None? then u.segments == [] && u.queries == []
    else
      && u.port.value != 0
      && OnlyLastEmpty(u.segments) && OnlyLastEmpty(u.queries)
      && (u.queries != [] ==> NoneEmpty(u.segments))
  }

  /**
   * Parse after compose, exactly: the library finds in a URI what the URI says if and only if the port is
   * explicit and not 0 and no empty segment or query is followed by more, or there is nothing but a host.
   */
  lemma UriRoundTripIff(u: Uri)
    requires WellFormed(u)
    ensures Split(Compose(u)) == Some(Meant(u)) <==> Survives(u)
  {
    hide Split, Compose, WellFormed, UpToEmpty;
    if HostEnds(u) {
      SplitOfComposed(u);
      UpToEmptyIff(u.segments);
      UpToEmptyIff(u.queries);
    } else {
      QuerySwallowed(u);
    }
  }

  // coap://h/p has a path; the library sees none.
  lemma PathWithoutPortIsLost()
    ensures var u := Uri(COAP, false, [104], None, [[112]], []);
            Split(Compose(u)) == Some(Parts([104], 5683, [], [])) && Split(Compose(u)) != Some(Meant(u))
  {
    SplitOfComposed(Uri(COAP, false, [104], None, [[112]], []));
  }

  // coap://[::1]:80/a/b?x&y, byte for byte.
  lemma UriExample()
    ensures Split([99, 111, 97, 112, 58, 47, 47, 91, 58, 58, 49, 93, 58, 56, 48, 47, 97, 47, 98, 63, 120, 38, 121])
         == Some(Parts([58, 58, 49], 80, [[97], [98]], [[120], [121]]))
  {
    var u := Uri([99, 111, 97, 112], true, [58, 58, 49], Some(80), [[97], [98]], [[120], [121]]);
    ExampleIsFit(u);
    ExampleText(u);
    hide *;
    UriRoundTripIff(u);
    ExampleMeans(u);
  }

  lemma ExampleMeans(u: Uri)
    requires u.port.Some?
    ensures Meant(u) == Parts(u.host, u.port.value, u.segments, u.queries)
  {
  }

  lemma ExampleIsFit(u: Uri)
    requires u == Uri([99, 111, 97, 112], true, [58, 58, 49], Some(80), [[97], [98]], [[120], [121]])
    ensures WellFormed(u) && Survives(u)
  {
  }

  lemma ExampleText(u: Uri)
    requires u == Uri([99, 111, 97, 112], true, [58, 58, 49], Some(80), [[97], [98]], [[120], [121]])
    ensures Compose(u) == [99, 111, 97, 112, 58, 47, 47, 91, 58, 58, 49, 93, 58, 56, 48, 47, 97, 47, 98, 63, 120, 38, 121]
  {
    ExampleTail(u);
    hide Tail, PortText;
    var rest: Text := [47, 97, 47, 98, 63, 120, 38, 121];
    assert PortText(u) + Tail(u) == [58, 56, 48] + rest;
    assert HostText(u) == [91, 58, 58, 49, 93];
  }

  lemma ExampleTail(u: Uri)
    requires u.port == Some(80) && u.segments == [[97], [98]] && u.queries == [[120], [121]]
    ensures PortText(u) == [58, 56, 48] && Tail(u) == [47, 97, 47, 98, 63, 120, 38, 121]
  {
    assert Decimal(8) == [56] && Decimal(80) == Decimal(8) + [48];
    assert u.segments[1..] == [[98]] && u.queries[1..] == [[121]];
    assert PathText([[98]]) == [47, 98] && QueryText(AMPERSAND, [[121]]) == [38, 121];
    assert PathText(u.segments) == [47, 97, 47, 98] && QueryText(QUESTION, u.queries) == [63, 120, 38, 121];
  }

  // ---------- The option list ----------

  lemma OptionsInOrder(p: Parts, same: (Text, u32) -> bool)
    ensures Sorted(OptionsOf(p, same)) && StableSort(OptionsOf(p, same)) == OptionsOf(p, same)
  {
    var opts := OptionsOf(p, same);
    SortedFromIndices(0, opts);
    StableSortKeepsSorted(opts);
  }

  lemma OptionsAt(p: Parts, same: (Text, u32) -> bool, i: nat)
    requires i < |OptionsOf(p, same)|
    ensures var o, n := OptionsOf(p, same)[i], if same(p.host, p.port) then 0 else 2;
            o == if i < n then HostOptions(p.host, p.port)[i]
                 else if i < n + |p.paths| then Opt(URI_PATH, p.paths[i - n])
                 else Opt(URI_QUERY, p.queries[i - n - |p.paths|])
  {
  }

  predicate AllEqual(parts: seq<Text>) {
    forall i, j :: 0 <= i < j < |parts| ==> parts[i] == parts[j]
  }

  /**
   * The options survive every qsort in order exactly when the path's segments are all the same and the
   * queries are all the same; with a stable sort they always do.
   */
  lemma UriOptionOrderIff(p: Parts, same: (Text, u32) -> bool)
    ensures StableSort(OptionsOf(p, same)) == OptionsOf(p, same)
    ensures (forall b :: IsSorting(OptionsOf(p, same), b) ==> b == OptionsOf(p, same)) <==> AllEqual(p.paths) && AllEqual(p.queries)
  {
    var opts := OptionsOf(p, same);
    OptionsInOrder(p, same);
    EverySortKeepsIff(opts);
    hide OptionsOf, IsSorting;
    if NumbersDetermineOptions(opts) {
      EqualIfDetermined(p, same);
    }
    if AllEqual(p.paths) && AllEqual(p.queries) {
      DeterminedIfEqual(p, same);
    }
  }

  lemma EqualIfDetermined(p: Parts, same: (Text, u32) -> bool)
    requires NumbersDetermineOptions(OptionsOf(p, same))
    ensures AllEqual(p.paths) && AllEqual(p.queries)
  {
    var n := if same(p.host, p.port) then 0 else 2;
    var m := n + |p.paths|;
    OptionsSize(p, same);
    hide OptionsOf, NumbersDetermineOptions;
    forall i, j | 0 <= i < j < |p.paths| ensures p.paths[i] == p.paths[j] {
      OptionsAt(p, same, n + i);
      OptionsAt(p, same, n + j);
      DeterminedAt(OptionsOf(p, same), n + i, n + j);
    }
    forall i, j | 0 <= i < j < |p.queries| ensures p.queries[i] == p.queries[j] {
      OptionsAt(p, same, m + i);
      OptionsAt(p, same, m + j);
      DeterminedAt(OptionsOf(p, same), m + i, m + j);
    }
  }

  lemma DeterminedAt(opts: seq<Opt>, i: nat, j: nat)
    requires NumbersDetermineOptions(opts) && i < |opts| && j < |opts| && opts[i].num == opts[j].num
    ensures opts[i] == opts[j]
  {
    assert opts[i] in opts && opts[j] in opts;
  }

  lemma DeterminedIfEqual(p: Parts, same: (Text, u32) -> bool)
    requires AllEqual(p.paths) && AllEqual(p.queries)
    ensures NumbersDetermineOptions(OptionsOf(p, same))
  {
    var opts := OptionsOf(p, same);
    hide OptionsOf, AllEqual;
    forall o, q | o in opts && q in opts && o.num == q.num ensures o == q {
      var i :| 0 <= i < |opts| && opts[i] == o;
      var j :| 0 <= j < |opts| && opts[j] == q;
      if i <= j {
        EqualNumbersEqual(p, same, i, j);
      } else {
        EqualNumbersEqual(p, same, j, i);
      }
    }
  }

  lemma EqualNumbersEqual(p: Parts, same: (Text, u32) -> bool, i: nat, j: nat)
    requires AllEqual(p.paths) && AllEqual(p.queries) && i <= j < |OptionsOf(p, same)|
    requires OptionsOf(p, same)[i].num == OptionsOf(p, same)[j].num
    ensures OptionsOf(p, same)[i] == OptionsOf(p, same)[j]
  {
    OptionsSize(p, same);
    OptionsAt(p, same, i);
    OptionsAt(p, same, j);
    hide OptionsOf;
  }

  lemma OptionsSize(p: Parts, same: (Text, u32) -> bool)
    ensures |OptionsOf(p, same)| == (if same(p.host, p.port) then 0 else 2) + |p.paths| + |p.queries|
  {
  }
}
