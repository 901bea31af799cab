/** From a URI to a request and on to the peer: the three parts together (mcoap/mc_endpt_udp.c:331-381). */
module Requests {
  import opened Bytes
  import opened OptionCodec
  import opened OptionOrder
  import opened MessageCodec
  import opened Uris
  import opened UriRoundTrip
  import opened OptionsMerge
  import opened Engine
  import opened EngineRuns
  import opened Endpoints
  import opened Messages
  import Header

  lemma SortingOfMerged(a: seq<Opt>, b: seq<Opt>, c: seq<Opt>, d: seq<Opt>)
    requires IsSorting(a, b) && IsSorting(b + c, d)
    ensures IsSorting(a + c, d)
  {
  }

  function OrNone(list: Option<seq<Opt>>): seq<Opt> {
    if list.Some? then list.value else []
  }

  // What the options of a URI are, before any sort.
  function UriOptions(same: (Text, u32) -> bool, uri: Text): seq<Opt> {
    if Split(uri).Some? then OptionsOf(Split(uri).value, same) else []
  }

  method MergeExtra(list: Option<seq<Opt>>, extra: array<OptRef>) returns (merged: seq<Opt>)
    ensures IsSorting(OrNone(list) + old(ViewOf(extra)), merged)
  {
    hide IsSorting, View;
    var refs: array?<OptRef> := null;
    ghost var v := ViewOf(extra);
    if list.Some? {
      refs := Store(list.value);
    }
    assert ViewOf(refs) == OrNone(list) && ViewOf(extra) == v;
    var all := Merge(refs, extra);
    merged := View(all[..]);
  }

  /**
   * mk_options: the URI's options, with the extra ones merged in if there are any. Without a usable URI there
   * are only the extra ones. The caller's list is left alone.
   */
  method MkOptions(same: (Text, u32) -> bool, uri: Text, extra: array?<OptRef>) returns (list: Option<seq<Opt>>)
    ensures list.Some? <==> Split(uri).Some? || extra != null
    ensures list.Some? ==> IsSorting(UriOptions(same, uri) + old(ViewOf(extra)), list.value)
    ensures list.Some? && Split(uri).Some? ==> Says(list.value, Split(uri).value, same, old(ViewOf(extra)))
  {
    hide IsSorting, Split, OptionsOf, View, Says;
    list := UriToOptions(same, uri);
    if extra == null {
      assert UriOptions(same, uri) + [] == UriOptions(same, uri);
      assert ViewOf(extra) == [];
    } else {
      NothingSorted();
      ghost var before := OrNone(list);
      var merged := MergeExtra(list, extra);
      SortingOfMerged(UriOptions(same, uri), before, ViewOf(extra), merged);
      list := Some(merged);
    }
    if list.Some? && Split(uri).Some? {
      SortingSays(Split(uri).value, same, ViewOf(extra), list.value);
    }
  }

  lemma NothingSorted()
    ensures IsSorting([], [])
  {
  }

  // No part of a URI is longer than the URI.
  predicate Within(parts: seq<Text>, n: nat) {
    forall i :: 0 <= i < |parts| ==> |parts[i]| <= n
  }

  lemma {:induction false} QueriesWithin(s: Text, n: nat)
    requires |s| <= n
    ensures Within(Queries(s), n)
    decreases |s|
  {
    if s != [] && (s[0] == QUESTION || s[0] == AMPERSAND) {
      QueriesWithin(s[1..][AdvanceTo(s[1..], [AMPERSAND])..], n);
    }
  }

  lemma {:induction false} PathsWithin(s: Text, n: nat)
    requires |s| <= n
    ensures Within(Paths(s).0, n)
    decreases |s|
  {
    if s != [] && s[0] == SLASH {
      PathsWithin(s[1..][AdvanceTo(s[1..], [SLASH, QUESTION])..], n);
    }
  }

  lemma UriOptionsSized(same: (Text, u32) -> bool, uri: Text)
    requires |uri| <= MAX_SIZED_VALUE
    ensures Sized(UriOptions(same, uri))
  {
    hide AfterScheme, GetPort, Paths, Queries, AdvanceTo;
    if Split(uri).Some? {
      AfterSchemeShorter(uri);
      var s := AfterScheme(uri).value;
      var host := GetAddress(s).value;
      var rest := s[HostWidth(s, host)..];
      var tail := rest[AdvanceTo(rest, [SLASH, QUESTION])..];
      PathsWithin(tail, MAX_SIZED_VALUE);
      QueriesWithin(Paths(tail).1, MAX_SIZED_VALUE);
      PartsSized(Split(uri).value, same);
    }
  }

  lemma AfterSchemeShorter(uri: Text)
    ensures AfterScheme(uri).Some? ==> |AfterScheme(uri).value| <= |uri|
  {
  }

  lemma PartsSized(p: Parts, same: (Text, u32) -> bool)
    requires |p.host| <= MAX_SIZED_VALUE && Within(p.paths, MAX_SIZED_VALUE) && Within(p.queries, MAX_SIZED_VALUE)
    ensures Sized(OptionsOf(p, same))
  {
  }

  lemma SortingSized(opts: seq<Opt>, list: seq<Opt>)
    requires IsSorting(opts, list) && Sized(opts)
    ensures Sized(list)
  {
    forall o | o in list ensures |o.value| <= MAX_SIZED_VALUE {
      assert o in multiset(list);
    }
  }

  // No list of options can make the request overrun the write buffer.
  lemma RequestFits(id: u16, resultfn: nat, code: byte, list: Option<seq<Opt>>, payload: Option<seq<byte>>, random: u32, room: nat)
    requires list.Some? ==> Sorted(list.value)
    requires PayloadBytes(payload) == [] || room <= MAX_VALUE || (list.Some? ==> Sized(list.value))
    ensures !Overruns(Request(id, resultfn, code, list, payload, random), room)
  {
    hide Request, PayloadBytes, Overruns, Sized, SortedFrom;
    RequestFields(id, resultfn, code, list, payload, random);
    NothingIsSized();
    SizeCheckSuffices(Request(id, resultfn, code, list, payload, random), room);
  }

  lemma NothingIsSized()
    ensures Sized([]) && Sorted([])
  {
  }

  lemma SizedConcat(a: seq<Opt>, b: seq<Opt>)
    requires Sized(a) && Sized(b)
    ensures Sized(a + b)
  {
  }

  /**
   * send_msg, and so mc_endpt_udp_get, put, post and delete: from a URI and perhaps extra options to a step of
   * the engine, with the options of both on the wire. A payload asks for a write buffer below 64 KiB, or options
   * the size pass can size.
   */
  method SendRequest(e: Endpoint, same: (Text, u32) -> bool, uri: Text, extra: array?<OptRef>, toaddr: Addr, resultfn: nat,
                     code: byte, payload: Option<seq<byte>>, random: u32)
    returns (result: u16, ghost a: Action, ghost m: Sending, ghost list: Option<seq<Opt>>)
    requires e.Valid()
    requires PayloadBytes(payload) == [] || e.wrbuffer.nbytes <= MAX_VALUE || (|uri| <= MAX_SIZED_VALUE && Sized(ViewOf(extra)))
    modifies e, e.env`now, e.env`log, e.env`drawn, e.wrbuffer.bytes, e.confirmq, e.confirmq.Nodes()
    ensures e.Valid() && Legal(old(e.Abs()), a) && e.Abs() == Apply(old(e.Abs()), a)
    ensures a == if resultfn != 0 then SendNext(m) else SendNon(Xmission(m.dest, m.bytes, m.at, m.err))
    ensures list.Some? <==> Split(uri).Some? || extra != null
    ensures list.Some? ==> IsSorting(UriOptions(same, uri) + old(ViewOf(extra)), list.value)
    ensures list.Some? && Split(uri).Some? ==> Says(list.value, Split(uri).value, same, old(ViewOf(extra)))
    ensures m.bytes == [] || RequestHead(old(e.nextid), resultfn, code, random) <= m.bytes
    ensures m.bytes == Datagram(Request(old(e.nextid), resultfn, code, list, payload, random), e.wrbuffer.nbytes)
    ensures m.dest == toaddr && m.resultfn == resultfn && m.msgid == old(e.nextid)
    ensures e.env.log == old(e.env.log) + Posted(if resultfn != 0 then Some(|old(e.records)|) else None, m)
    ensures result == if m.err == DONE then old(e.nextid) else 0
    ensures fresh(e.confirmq.Nodes() - old(e.confirmq.Nodes()))
  {
    hide IsSorting, UriOptions, Endpoint.Valid, Split, View, Apply, Legal, Datagram, Request, RequestHead, Says, Sized, Overruns,
         PayloadBytes;
    var options := MkOptions(same, uri, extra);
    if options.Some? {
      SortingIsSorted(UriOptions(same, uri) + ViewOf(extra), options.value);
      if |uri| <= MAX_SIZED_VALUE && Sized(ViewOf(extra)) {
        UriOptionsSized(same, uri);
        SizedConcat(UriOptions(same, uri), ViewOf(extra));
        SortingSized(UriOptions(same, uri) + ViewOf(extra), options.value);
      }
    }
    RequestFits(e.nextid, resultfn, code, options, payload, random, e.wrbuffer.nbytes);
    list := options;
    result, a, m := e.SendMsg(toaddr, resultfn, code, options, payload, random);
  }

  // The format can carry the URI's parts and the extra options: nothing that is sent is longer than 65535 bytes.
  predicate Carriable(u: Uri, same: (Text, u32) -> bool, extra: seq<Opt>) {
    && (same(Meant(u).host, Meant(u).port) || |u.host| <= 65535)
    && Within(u.segments, 65535) && Within(u.queries, 65535) && forall o | o in extra :: |o.value| <= 65535
  }

  lemma CarriableFits(u: Uri, same: (Text, u32) -> bool, extra: seq<Opt>)
    requires Carriable(u, same, extra)
    ensures ValuesFit(OptionsOf(Meant(u), same) + extra)
  {
  }

  /**
   * A request for a URI that survives parsing, under any id and with any extra options, its options in any order a
   * qsort may leave them in: whatever sort its receiver uses, it finds the method as the code, version, type, id and
   * token as they were given; the URI's host, port, path and queries, and the extra options, up to the order of those
   * with equal numbers; and the payload.
   */
  lemma RequestArrives(u: Uri, same: (Text, u32) -> bool, extra: seq<Opt>, list: seq<Opt>, id: u16, resultfn: nat, code: byte,
                       payload: Option<seq<byte>>, random: u32)
    requires WellFormed(u) && Survives(u) && Carriable(u, same, extra)
    requires IsSorting(UriOptions(same, Compose(u)) + extra, list)
    ensures forall r :: MayParse(EncodeMessage(Request(id, resultfn, code, Some(list), payload, random)), 0, r) ==>
              && r.Parsed? && IsRequest(r.msg, id, resultfn, code, random)
              && Says(OptsOf(r.msg), Meant(u), same, extra)
              && r.msg.payload == if payload == Some([]) then None else payload
  {
    hide Split, Compose, OptionsOf, EncodeMessage, Normal, ValuesFit, WellFormed, Survives, Meant, Request, Representable, Carriable,
         IsSorting, MayParse, Says, IsRequest;
    UriRoundTripIff(u);
    CarriableFits(u, same, extra);
    var all := OptionsOf(Meant(u), same) + extra;
    SortingKeepsFit(all, list);
    SortingIsSorted(all, list);
    var m := Request(id, resultfn, code, Some(list), payload, random);
    RequestIsRepresentable(id, resultfn, code, list, payload, random);
    RequestNormal(id, resultfn, code, list, payload, random);
    MessageComesBack(m);
    forall r | MayParse(EncodeMessage(m), 0, r)
      ensures r.Parsed? && IsRequest(r.msg, id, resultfn, code, random) && Says(OptsOf(r.msg), Meant(u), same, extra)
      ensures r.msg.payload == if payload == Some([]) then None else payload
    {
      SortingTwice(all, list, OptsOf(r.msg));
      SortingSays(Meant(u), same, extra, OptsOf(r.msg));
      RequestWith(Normal(m), r.msg.options, id, resultfn, code, random);
    }
  }

  lemma RequestWith(m: Message, options: Option<seq<Opt>>, id: u16, resultfn: nat, code: byte, random: u32)
    requires IsRequest(m, id, resultfn, code, random)
    ensures IsRequest(m.(options := options), id, resultfn, code, random)
  {
  }

  lemma RequestNormal(id: u16, resultfn: nat, code: byte, list: seq<Opt>, payload: Option<seq<byte>>, random: u32)
    ensures var n := Normal(Request(id, resultfn, code, Some(list), payload, random));
            && IsRequest(n, id, resultfn, code, random) && OptsOf(n) == list
            && n.payload == if payload == Some([]) then None else payload
  {
    hide Request, IsAck, IsConfirmable, MessageId, Header.GetVersion, Header.GetMessageType, Header.GetTokenLength, Header.GetCode,
         Header.GetMessageId;
    RequestFields(id, resultfn, code, Some(list), payload, random);
  }

  lemma SortingTwice(a: seq<Opt>, b: seq<Opt>, c: seq<Opt>)
    requires IsSorting(a, b) && IsSorting(b, c)
    ensures IsSorting(a, c)
  {
  }

  lemma RequestIsRepresentable(id: u16, resultfn: nat, code: byte, list: seq<Opt>, payload: Option<seq<byte>>, random: u32)
    requires ValuesFit(list)
    ensures var m := Request(id, resultfn, code, Some(list), payload, random); OptsOf(m) == list && Representable(m)
  {
    hide Header.Create, TokenLength, ValuesFit;
    TokenLengthOfCreate(Header.MESSAGE_VERSION, if resultfn != 0 then Header.CONFIRM else Header.NOCONFIRM, 6, code, id);
  }

  /** Where the sorts on both sides are stable it finds them in order, too. */
  lemma RequestArrivesInOrder(u: Uri, same: (Text, u32) -> bool, extra: seq<Opt>, id: u16, resultfn: nat, code: byte,
                              payload: Option<seq<byte>>, random: u32)
    requires WellFormed(u) && Survives(u) && Carriable(u, same, extra)
    ensures var list := StableSort(UriOptions(same, Compose(u)) + extra);
            var b := EncodeMessage(Request(id, resultfn, code, Some(list), payload, random));
            var r := ParseMessage(b, 0);
            && r.Parsed? && r.pos == |b| && IsRequest(r.msg, id, resultfn, code, random)
            && SaysInOrder(OptsOf(r.msg), Meant(u), same, extra)
            && r.msg.payload == if payload == Some([]) then None else payload
  {
    hide Split, Compose, OptionsOf, EncodeMessage, ParseMessage, Normal, ValuesFit, WellFormed, Survives, Meant, Request, Representable,
         Carriable, IsSorting, IsStableSorting, SaysInOrder, IsRequest, StableSort;
    UriRoundTripIff(u);
    CarriableFits(u, same, extra);
    var all := OptionsOf(Meant(u), same) + extra;
    var list := StableSort(all);
    StableSortSorts(all);
    SortingKeepsFit(all, list);
    SortingIsSorted(all, list);
    StableSays(Meant(u), same, extra, list);
    RequestIsRepresentable(id, resultfn, code, list, payload, random);
    RequestNormal(id, resultfn, code, list, payload, random);
    MessageRoundTrip(Request(id, resultfn, code, Some(list), payload, random));
  }
}
