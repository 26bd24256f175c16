/**
 * The nl80211 client: the attribute handlers that fill an interface snapshot
 * in place, the two-phase interface query (scan dump, then station
 * statistics), and the fan-out of multicast events to listeners.
 *
 * The netlink transport is replaced by its observable results: the messages
 * a receive call hands to the handler, already split into the attributes the
 * handlers read, and whether the receive call reported success.
 */
module Wireless {
  import opened Wrappers
  import opened InfoElements

  newtype u32 = x: int | 0 <= x < 0x1_0000_0000
  newtype i8 = x: int | -128 <= x < 128

  /** Length of a MAC address (ETH_ALEN). */
  const EthAlen: nat := 6

  // ---------------------------------------------------------------------
  // Parsed attributes

  /** The nested attributes of one scan entry that the BSS handler reads. */
  datatype BssAttrs = BssAttrs(status: Option<seq<u8>>, bssid: Option<seq<u8>>, ies: Option<seq<u8>>)

  /** The nested rate-info attributes: the 32-bit total bitrate, in 100 kbit/s. */
  datatype RateInfo = RateInfo(bitrate32: Option<u32>)

  /** The nested station-info attributes that the station handler reads. */
  datatype StaAttrs = StaAttrs(signal: Option<u8>, rxBitrate: Option<RateInfo>, txBitrate: Option<RateInfo>)

  /** One message of a reply: its BSS and station-info containers, if present. */
  datatype Message = Message(bss: Option<BssAttrs>, staInfo: Option<StaAttrs>)

  /** A scan entry that counts as the associated BSS: it has both a status and a BSSID. */
  predicate Qualifies(b: BssAttrs) {
    b.status.Some? && b.bssid.Some?
  }

  /** What the handlers demand of a message (their assertions and unchecked
      copies): a qualifying entry has a 6-octet BSSID and SSID elements that
      fit the snapshot, and a rate-info container carries its 32-bit bitrate. */
  predicate WellFormed(m: Message) {
    (m.bss.Some? ==> BssWellFormed(m.bss.value)) && (m.staInfo.Some? ==> StaWellFormed(m.staInfo.value))
  }

  predicate BssWellFormed(b: BssAttrs) {
    Qualifies(b) ==>
      && |b.bssid.value| == EthAlen
      && (b.ies.Some? ==> SsidsFit(Elements(b.ies.value)))
  }

  predicate StaWellFormed(t: StaAttrs) {
    && (t.rxBitrate.Some? ==> t.rxBitrate.value.bitrate32.Some?)
    && (t.txBitrate.Some? ==> t.txBitrate.value.bitrate32.Some?)
  }

  predicate AllWellFormed(msgs: seq<Message>) {
    forall m | m in msgs :: WellFormed(m)
  }

  // ---------------------------------------------------------------------
  // The snapshot as a value, and what each handler does to it

  datatype Info = Info(
    connected: bool,
    mac: seq<u8>,
    ssid: seq<u8>,
    ssidLength: nat,
    ssidFiltered: seq<u8>,
    signalStrength: i8,
    rxBitrate: u32,
    txBitrate: u32)

  /** The buffers have their fixed sizes. */
  predicate Shaped(s: Info) {
    |s.mac| == EthAlen && |s.ssid| == SsidCapacity && |s.ssidFiltered| == SsidCapacity
  }

  /** An SSID element stored in the snapshot: the value is copied over the
      front of `ssid`, its filtered copy and a NUL over the front of
      `ssidFiltered`; octets past them keep what an earlier SSID left. */
  function WithSsid(s: Info, v: seq<u8>): (r: Info)
    requires Shaped(s) && |v| < SsidCapacity
    ensures Shaped(r)
  {
    s.(ssid := v + s.ssid[|v|..],
       ssidLength := |v|,
       ssidFiltered := Filtered(v) + [0] + s.ssidFiltered[|v| + 1..])
  }

  /** The snapshot after walking a list of elements: each SSID element is
      stored in turn, every other element is skipped. */
  function WalkElements(s: Info, es: seq<Element>): (r: Info)
    requires Shaped(s) && SsidsFit(es)
    ensures Shaped(r)
    ensures r.(ssid := s.ssid, ssidLength := s.ssidLength, ssidFiltered := s.ssidFiltered) == s
    decreases |es|
  {
    if es == [] then s
    else WalkElements(if es[0].id == SsidElementId then WithSsid(s, es[0].value) else s, es[1..])
  }

  /** The value of the last SSID element of a list, if there is one. */
  function LastSsid(es: seq<Element>): (r: Option<seq<u8>>)
    ensures r.Some? ==> Element(SsidElementId, r.value) in es
  {
    if es == [] then None
    else match LastSsid(es[1..])
      case Some(v) => Some(v)
      case None => if es[0].id == SsidElementId then Some(es[0].value) else None
  }

  /** LastSsid picks the value of the LAST SSID element, and finds nothing
      exactly when there is no SSID element. */
  lemma {:induction false} LastSsidIsLast(es: seq<Element>)
    ensures LastSsid(es).None? <==> forall j | 0 <= j < |es| :: es[j].id != SsidElementId
    ensures LastSsid(es).Some? ==>
      exists k | 0 <= k < |es| ::
        && es[k] == Element(SsidElementId, LastSsid(es).value)
        && forall j | k < j < |es| :: es[j].id != SsidElementId
    decreases |es|
  {
    if es != [] {
      var tail := es[1..];
      LastSsidIsLast(tail);
      if LastSsid(tail).Some? {
        var k :| 0 <= k < |tail| && tail[k] == Element(SsidElementId, LastSsid(tail).value)
                 && forall j | k < j < |tail| :: tail[j].id != SsidElementId;
        assert es[k + 1] == tail[k];
        forall j | k + 1 < j < |es| ensures es[j].id != SsidElementId {
          assert es[j] == tail[j - 1];
        }
      } else {
        forall j | 0 < j < |es| ensures es[j].id != SsidElementId {
          assert es[j] == tail[j - 1];
        }
      }
    }
  }

  /** Without an SSID element the walk leaves the snapshot as it was. */
  lemma {:induction false} WalkWithoutSsid(s: Info, es: seq<Element>)
    requires Shaped(s) && SsidsFit(es)
    requires LastSsid(es).None?
    ensures WalkElements(s, es) == s
    decreases |es|
  {
    if es != [] {
      WalkWithoutSsid(s, es[1..]);
    }
  }

  /** The last SSID element decides `ssidLength`, the SSID octets and their
      NUL-terminated filtered copy. */
  lemma {:induction false} LastSsidWins(s: Info, es: seq<Element>)
    requires Shaped(s) && SsidsFit(es)
    requires LastSsid(es).Some?
    ensures var r, v := WalkElements(s, es), LastSsid(es).value;
      && r.ssidLength == |v|
      && r.ssid[..|v|] == v
      && r.ssidFiltered[..|v|] == Filtered(v)
      && r.ssidFiltered[|v|] == 0
    decreases |es|
  {
    var s' := if es[0].id == SsidElementId then WithSsid(s, es[0].value) else s;
    if LastSsid(es[1..]).Some? {
      LastSsidWins(s', es[1..]);
    } else {
      WalkWithoutSsid(s', es[1..]);
      var v := es[0].value;
      assert (v + s.ssid[|v|..])[..|v|] == v;
      assert (Filtered(v) + [0] + s.ssidFiltered[|v| + 1..])[..|v|] == Filtered(v);
    }
  }

  /** handle_info_bss: a scan entry without status or BSSID changes nothing;
      a qualifying one sets the MAC, clears the SSID length, walks the
      elements and marks the snapshot connected. Signal and bitrates are
      never touched. */
  function BssEffect(s: Info, b: BssAttrs): (r: Info)
    requires Shaped(s) && BssWellFormed(b)
    ensures Shaped(r)
    ensures !Qualifies(b) ==> r == s
    ensures Qualifies(b) ==> r.connected && r.mac == b.bssid.value
    ensures r.signalStrength == s.signalStrength && r.rxBitrate == s.rxBitrate && r.txBitrate == s.txBitrate
  {
    if !Qualifies(b) then s
    else
      var cleared := s.(mac := b.bssid.value, ssidLength := 0);
      var walked := if b.ies.Some? then WalkElements(cleared, Elements(b.ies.value)) else cleared;
      walked.(connected := true)
  }

  /** The SSID of scan entry `b` as the snapshot `r` shows it: the length,
      the octets and the NUL-terminated filtered copy of the entry's last
      SSID element, or a zero length when the entry has none. */
  predicate ShowsSsidOf(r: Info, b: BssAttrs) {
    var last := if b.ies.Some? then LastSsid(Elements(b.ies.value)) else None;
    if last.None? then r.ssidLength == 0
    else
      var v := last.value;
      && r.ssidLength == |v|
      && |v| < |r.ssid| && |v| < |r.ssidFiltered|
      && r.ssid[..|v|] == v
      && r.ssidFiltered[..|v|] == Filtered(v)
      && r.ssidFiltered[|v|] == 0
  }

  /** After a qualifying scan entry the snapshot shows that entry's SSID. */
  lemma QualifyingBssEffect(s: Info, b: BssAttrs)
    requires Shaped(s) && BssWellFormed(b)
    ensures Qualifies(b) ==> ShowsSsidOf(BssEffect(s, b), b)
  {
    if Qualifies(b) && b.ies.Some? {
      var cleared := s.(mac := b.bssid.value, ssidLength := 0);
      var es := Elements(b.ies.value);
      if LastSsid(es).Some? {
        LastSsidWins(cleared, es);
      } else {
        WalkWithoutSsid(cleared, es);
      }
    }
  }

  /** `(int8_t) u8`: the octet read as a two's-complement signed value. */
  function Int8(v: u8): (r: i8)
    ensures r as int % 256 == v as int
    ensures r < 0 <==> v >= 128
  {
    if v >= 128 then (v as int - 256) as i8 else v as int as i8
  }

  /** get_bitrate: the 32-bit total bitrate, unconverted. */
  function GetBitrate(rate: RateInfo): (r: u32)
    requires rate.bitrate32.Some?
    ensures rate.bitrate32 == Some(r)
  {
    rate.bitrate32.value
  }

  /** handle_info_sta: signal and both bitrates start at zero and take the
      value of their attribute when it is present. */
  function StaEffect(s: Info, t: StaAttrs): (r: Info)
    requires StaWellFormed(t)
    ensures r.(signalStrength := s.signalStrength, rxBitrate := s.rxBitrate, txBitrate := s.txBitrate) == s
    ensures r.signalStrength as int % 256 == if t.signal.Some? then t.signal.value as int else 0
    ensures t.rxBitrate.Some? ==> Some(r.rxBitrate) == t.rxBitrate.value.bitrate32
    ensures t.txBitrate.Some? ==> Some(r.txBitrate) == t.txBitrate.value.bitrate32
    ensures t.rxBitrate.None? ==> r.rxBitrate == 0
    ensures t.txBitrate.None? ==> r.txBitrate == 0
  {
    s.(signalStrength := if t.signal.Some? then Int8(t.signal.value) else 0,
       rxBitrate := if t.rxBitrate.Some? then GetBitrate(t.rxBitrate.value) else 0,
       txBitrate := if t.txBitrate.Some? then GetBitrate(t.txBitrate.value) else 0)
  }

  /** handle_info: the BSS container first, then the station-info container. */
  function MessageEffect(s: Info, m: Message): (r: Info)
    requires Shaped(s) && WellFormed(m)
    ensures Shaped(r)
  {
    var afterBss := if m.bss.Some? then BssEffect(s, m.bss.value) else s;
    if m.staInfo.Some? then StaEffect(afterBss, m.staInfo.value) else afterBss
  }

  /** The two containers of a message write disjoint fields: the association
      fields come from the scan entry alone, the station fields from the
      station-info container alone. */
  lemma MessageEffectFields(s: Info, m: Message)
    requires Shaped(s) && WellFormed(m)
    ensures var r := MessageEffect(s, m);
      var bssOnly := if m.bss.Some? then BssEffect(s, m.bss.value) else s;
      var staOnly := if m.staInfo.Some? then StaEffect(s, m.staInfo.value) else s;
      && r.connected == bssOnly.connected && r.mac == bssOnly.mac
      && r.ssid == bssOnly.ssid && r.ssidLength == bssOnly.ssidLength && r.ssidFiltered == bssOnly.ssidFiltered
      && r.signalStrength == staOnly.signalStrength
      && r.rxBitrate == staOnly.rxBitrate && r.txBitrate == staOnly.txBitrate
  {
  }

  /** The snapshot after handle_info has run on each message of a reply, in order. */
  function Receive(s: Info, msgs: seq<Message>): (r: Info)
    requires Shaped(s) && AllWellFormed(msgs)
    ensures Shaped(r)
    decreases |msgs|
  {
    if msgs == [] then s else Receive(MessageEffect(s, msgs[0]), msgs[1..])
  }

  /** The last scan entry of a reply that has both a status and a BSSID. */
  function LastQualifying(msgs: seq<Message>): (r: Option<BssAttrs>)
    ensures r.Some? ==> Qualifies(r.value)
  {
    if msgs == [] then None
    else match LastQualifying(msgs[1..])
      case Some(b) => Some(b)
      case None => if msgs[0].bss.Some? && Qualifies(msgs[0].bss.value) then msgs[0].bss else None
  }

  /** Whether message j of a reply carries a qualifying scan entry. */
  predicate QualifiesAt(msgs: seq<Message>, j: int)
    requires 0 <= j < |msgs|
  {
    msgs[j].bss.Some? && Qualifies(msgs[j].bss.value)
  }

  /** LastQualifying picks the entry of the LAST qualifying message, and
      finds nothing exactly when no message qualifies. */
  lemma {:induction false} LastQualifyingIsLast(msgs: seq<Message>)
    ensures LastQualifying(msgs).None? <==> forall j | 0 <= j < |msgs| :: !QualifiesAt(msgs, j)
    ensures LastQualifying(msgs).Some? ==>
      exists k | 0 <= k < |msgs| ::
        && msgs[k].bss == LastQualifying(msgs)
        && forall j | k < j < |msgs| :: !QualifiesAt(msgs, j)
    decreases |msgs|
  {
    if msgs != [] {
      var tail := msgs[1..];
      LastQualifyingIsLast(tail);
      if LastQualifying(tail).Some? {
        var k :| 0 <= k < |tail| && tail[k].bss == LastQualifying(tail)
                 && forall j | k < j < |tail| :: !QualifiesAt(tail, j);
        assert msgs[k + 1] == tail[k] && QualifiesAt(msgs, k + 1);
        forall j | k + 1 < j < |msgs| ensures !QualifiesAt(msgs, j) {
          assert msgs[j] == tail[j - 1] && !QualifiesAt(tail, j - 1);
        }
      } else {
        forall j | 0 < j < |msgs| ensures !QualifiesAt(msgs, j) {
          assert msgs[j] == tail[j - 1] && !QualifiesAt(tail, j - 1);
        }
        if QualifiesAt(msgs, 0) {
          assert msgs[0].bss == LastQualifying(msgs);
        }
      }
    }
  }

  /** Messages without a qualifying scan entry leave the association
      fields as they were: connected, the MAC and the SSID. */
  lemma {:induction false} NoQualifyingKeepsBss(s: Info, msgs: seq<Message>)
    requires Shaped(s) && AllWellFormed(msgs) && LastQualifying(msgs).None?
    ensures var r := Receive(s, msgs);
      && r.connected == s.connected && r.mac == s.mac
      && r.ssid == s.ssid && r.ssidLength == s.ssidLength && r.ssidFiltered == s.ssidFiltered
    decreases |msgs|
  {
    if msgs != [] {
      assert WellFormed(msgs[0]);
      NoQualifyingKeepsBss(MessageEffect(s, msgs[0]), msgs[1..]);
    }
  }

  /** Nothing stops a later qualifying entry from overwriting an earlier one:
      after a reply, the MAC and the SSID are those of the LAST qualifying
      entry, and the snapshot is connected exactly when it was already or
      some entry qualifies. */
  lemma {:induction false} LastQualifyingBssWins(s: Info, msgs: seq<Message>)
    requires Shaped(s) && AllWellFormed(msgs)
    ensures var r := Receive(s, msgs);
      && (r.connected <==> s.connected || LastQualifying(msgs).Some?)
      && (LastQualifying(msgs).Some? ==>
            r.mac == LastQualifying(msgs).value.bssid.value && ShowsSsidOf(r, LastQualifying(msgs).value))
      && (LastQualifying(msgs).None? ==>
            && r.mac == s.mac
            && r.ssid == s.ssid && r.ssidLength == s.ssidLength && r.ssidFiltered == s.ssidFiltered)
    decreases |msgs|
  {
    if LastQualifying(msgs).None? {
      NoQualifyingKeepsBss(s, msgs);
    } else if msgs != [] {
      var m := msgs[0];
      assert WellFormed(m);
      var s1 := MessageEffect(s, m);
      LastQualifyingBssWins(s1, msgs[1..]);
      if LastQualifying(msgs[1..]).None? && m.bss.Some? && Qualifies(m.bss.value) {
        var b := m.bss.value;
        QualifyingBssEffect(s, b);
        assert ShowsSsidOf(s1, b);
        NoQualifyingKeepsBss(s1, msgs[1..]);
      }
    }
  }

  // ---------------------------------------------------------------------
  // The two-phase query

  /** What one receive call produced: the messages handed to the handler
      before it returned, and whether it returned success. */
  datatype Reply = Reply(msgs: seq<Message>, ok: bool)

  /** The requests the query sends on the info socket. */
  datatype Request = GetScan(ifindex: u32) | GetStation(ifindex: u32, mac: seq<u8>)

  /** How a query ended. `Aborted` is the failed assertion on the station
      reply: the process terminates. */
  datatype Outcome = NoSuchInterface | ScanFailed | NotAssociated | StationQueried | Aborted

  datatype QueryResult = QueryResult(info: Info, outcome: Outcome, sent: seq<Request>)

  /** get_interface_info, given the resolved interface index (0 for an
      unknown name), the reply to the scan dump and the reply to the station
      request (only consulted when that request is sent). */
  function Query(s: Info, ifindex: u32, scan: Reply, station: Reply): (q: QueryResult)
    requires Shaped(s) && AllWellFormed(scan.msgs) && AllWellFormed(station.msgs)
    ensures Shaped(q.info)
    ensures q.sent == [] <==> q.outcome == NoSuchInterface
    ensures q.outcome == NoSuchInterface <==> ifindex == 0
    ensures q.sent != [] ==> q.sent[0] == GetScan(ifindex)
    ensures |q.sent| == 2 <==> q.outcome == StationQueried || q.outcome == Aborted
    ensures |q.sent| <= 2
    ensures q.outcome == NotAssociated ==> !q.info.connected
  {
    var start := s.(connected := false);
    if ifindex == 0 then QueryResult(start, NoSuchInterface, [])
    else
      var scanned := Receive(start, scan.msgs);
      if !scan.ok then QueryResult(scanned, ScanFailed, [GetScan(ifindex)])
      else if !scanned.connected then QueryResult(scanned, NotAssociated, [GetScan(ifindex)])
      else
        QueryResult(Receive(scanned, station.msgs),
                    if station.ok then StationQueried else Aborted,
                    [GetScan(ifindex), GetStation(ifindex, scanned.mac)])
  }

  /** The request sequence of a query: nothing for an unknown interface, the
      scan dump alone when it fails or finds no qualifying entry, and
      otherwise the scan dump followed by a station request keyed by the
      same index and the BSSID of the last qualifying entry. */
  lemma QueryRequests(s: Info, ifindex: u32, scan: Reply, station: Reply)
    requires Shaped(s) && AllWellFormed(scan.msgs) && AllWellFormed(station.msgs)
    ensures var q := Query(s, ifindex, scan, station);
      && (ifindex == 0 ==> q.sent == [] && !q.info.connected && q.outcome == NoSuchInterface)
      && (ifindex != 0 && !scan.ok ==> q.sent == [GetScan(ifindex)] && q.outcome == ScanFailed)
      && (ifindex != 0 && scan.ok && LastQualifying(scan.msgs).None? ==>
            q.sent == [GetScan(ifindex)] && !q.info.connected && q.outcome == NotAssociated)
      && (ifindex != 0 && scan.ok && LastQualifying(scan.msgs).Some? ==>
            q.sent == [GetScan(ifindex), GetStation(ifindex, LastQualifying(scan.msgs).value.bssid.value)]
            && q.info.connected
            && (q.outcome == StationQueried <==> station.ok))
  {
    var start := s.(connected := false);
    LastQualifyingBssWins(start, scan.msgs);
    if ifindex != 0 && scan.ok && LastQualifying(scan.msgs).Some? {
      var scanned := Receive(start, scan.msgs);
      LastQualifyingBssWins(scanned, station.msgs);
    }
  }

  // ---------------------------------------------------------------------
  // The snapshot object the caller owns

  /** InterfaceInfo: the caller's snapshot, filled in place. */
  class InterfaceInfo {
    var connected: bool
    const mac: array<u8>
    const ssid: array<u8>
    var ssidLength: nat
    const ssidFiltered: array<u8>
    var signalStrength: i8
    var rxBitrate: u32
    var txBitrate: u32

    /** The three buffers have their fixed sizes and are distinct. */
    ghost predicate Valid() {
      && mac.Length == EthAlen && ssid.Length == SsidCapacity && ssidFiltered.Length == SsidCapacity
      && mac != ssid && mac != ssidFiltered && ssid != ssidFiltered
    }

    /** The snapshot's current contents as a value. */
    function Snapshot(): (s: Info)
      reads this, mac, ssid, ssidFiltered
    {
      Info(connected, mac[..], ssid[..], ssidLength, ssidFiltered[..], signalStrength, rxBitrate, txBitrate)
    }

    /** A zero-filled snapshot. */
    constructor ()
      ensures Valid() && fresh(mac) && fresh(ssid) && fresh(ssidFiltered)
      ensures Snapshot() == Info(false, seq(EthAlen, _ => 0), seq(SsidCapacity, _ => 0), 0,
                                 seq(SsidCapacity, _ => 0), 0, 0, 0)
    {
      connected := false;
      mac := new u8[EthAlen](_ => 0);
      ssid := new u8[SsidCapacity](_ => 0);
      ssidLength := 0;
      ssidFiltered := new u8[SsidCapacity](_ => 0);
      signalStrength, rxBitrate, txBitrate := 0, 0, 0;
    }
  }

  /** The SSID branch of handle_info_bss_ies: copy the value, record its
      length, build the filtered copy octet by octet and terminate it. */
  method StoreSsid(value: seq<u8>, info: InterfaceInfo)
    requires info.Valid() && |value| < SsidCapacity
    modifies info, info.ssid, info.ssidFiltered
    ensures info.Snapshot() == WithSsid(old(info.Snapshot()), value)
  {
    ghost var ssid0, filtered0 := info.ssid[..], info.ssidFiltered[..];
    var l := |value|;
    forall k | 0 <= k < l {
      info.ssid[k] := value[k];
    }
    assert info.ssid[..] == value + ssid0[l..];
    info.ssidLength := l;
    ghost var f := Filtered(value);
    for i := 0 to l
      modifies info.ssidFiltered
      invariant info.ssid[..] == value + ssid0[l..]
      invariant forall k | 0 <= k < i :: info.ssidFiltered[k] == f[k]
      invariant forall k | i <= k < SsidCapacity :: info.ssidFiltered[k] == filtered0[k]
    {
      if IsPrint(info.ssid[i]) && info.ssid[i] != Quote {
        info.ssidFiltered[i] := info.ssid[i];
      } else {
        info.ssidFiltered[i] := Question;
      }
    }
    info.ssidFiltered[l] := 0;
    assert info.ssidFiltered[..] == f + [0] + filtered0[l + 1..];
  }

  /** One element of the walk: an SSID element is stored, any other element
      is skipped. */
  method HandleElement(id: u8, value: seq<u8>, info: InterfaceInfo)
    requires info.Valid() && (id == SsidElementId ==> |value| < SsidCapacity)
    modifies info, info.ssid, info.ssidFiltered
    ensures info.Snapshot() == if id == SsidElementId then WithSsid(old(info.Snapshot()), value) else old(info.Snapshot())
  {
    if id == SsidElementId {
      StoreSsid(value, info);
    }
  }

  /** The walk over a stream whose first element is complete: that element,
      then the walk over the rest. */
  lemma WalkStep(s: Info, ies: seq<u8>)
    requires Shaped(s) && HeaderFits(ies) && SsidsFit(Elements(ies))
    ensures var l := ies[1] as int;
      var rest := Elements(ies[2 + l..]);
      && SsidsFit(rest)
      && (ies[0] == SsidElementId ==> l < SsidCapacity)
      && WalkElements(s, Elements(ies))
         == WalkElements(if ies[0] == SsidElementId then WithSsid(s, ies[2..2 + l]) else s, rest)
  {
    var l := ies[1] as int;
    var e := Element(ies[0], ies[2..2 + l]);
    var es := Elements(ies);
    assert es == [e] + Elements(ies[2 + l..]);
    assert es[0] == e && es[1..] == Elements(ies[2 + l..]);
    assert e in es;
    forall x | x in es[1..] ensures x in es {
    }
  }

  /** handle_info_bss_ies: walk the elements while the remaining octets hold a
      complete one, storing every SSID element on the way. The remaining
      slice stands for the C cursor and its length; the guard is the
      corrected one (the declared value must fit as well as the header). */
  method HandleInfoBssIes(data: seq<u8>, info: InterfaceInfo)
    requires info.Valid() && SsidsFit(Elements(data))
    modifies info, info.ssid, info.ssidFiltered
    ensures info.Snapshot() == WalkElements(old(info.Snapshot()), Elements(data))
  {
    var rest := data;
    while |rest| >= 2 && rest[1] as int + 2 <= |rest|
      invariant SsidsFit(Elements(rest))
      invariant WalkElements(info.Snapshot(), Elements(rest)) == WalkElements(old(info.Snapshot()), Elements(data))
      decreases |rest|
    {
      var t := rest[0];
      var l := rest[1] as int;
      WalkStep(info.Snapshot(), rest);
      HandleElement(t, rest[2..2 + l], info);
      rest := rest[2 + l..];
    }
  }

  /** handle_info_bss. */
  method HandleInfoBss(bss: BssAttrs, info: InterfaceInfo)
    requires info.Valid() && BssWellFormed(bss)
    modifies info, info.mac, info.ssid, info.ssidFiltered
    ensures info.Snapshot() == BssEffect(old(info.Snapshot()), bss)
  {
    if bss.status.None? || bss.bssid.None? {
      return;
    }
    var bssid := bss.bssid.value;
    forall k | 0 <= k < EthAlen {
      info.mac[k] := bssid[k];
    }
    assert info.mac[..] == bssid;
    info.ssidLength := 0;
    ghost var cleared := old(info.Snapshot()).(mac := bssid, ssidLength := 0);
    assert info.Snapshot() == cleared;
    if bss.ies.Some? {
      HandleInfoBssIes(bss.ies.value, info);
    }
    info.connected := true;
  }

  /** handle_info_sta. */
  method HandleInfoSta(sta: StaAttrs, info: InterfaceInfo)
    requires StaWellFormed(sta)
    modifies info
    ensures info.Snapshot() == StaEffect(old(info.Snapshot()), sta)
  {
    info.signalStrength := 0;
    info.rxBitrate := 0;
    info.txBitrate := 0;
    if sta.signal.Some? {
      info.signalStrength := Int8(sta.signal.value);
    }
    if sta.rxBitrate.Some? {
      info.rxBitrate := GetBitrate(sta.rxBitrate.value);
    }
    if sta.txBitrate.Some? {
      info.txBitrate := GetBitrate(sta.txBitrate.value);
    }
  }

  /** handle_info: the callback the info socket runs on every valid message. */
  method HandleInfo(msg: Message, info: InterfaceInfo)
    requires info.Valid() && WellFormed(msg)
    modifies info, info.mac, info.ssid, info.ssidFiltered
    ensures info.Snapshot() == MessageEffect(old(info.Snapshot()), msg)
  {
    if msg.bss.Some? {
      HandleInfoBss(msg.bss.value, info);
    }
    if msg.staInfo.Some? {
      HandleInfoSta(msg.staInfo.value, info);
    }
  }

  /** The receive call on the info socket: handle_info on each message in turn. */
  method ReceiveInto(msgs: seq<Message>, info: InterfaceInfo)
    requires info.Valid() && AllWellFormed(msgs)
    modifies info, info.mac, info.ssid, info.ssidFiltered
    ensures info.Snapshot() == Receive(old(info.Snapshot()), msgs)
  {
    for i := 0 to |msgs|
      invariant Receive(info.Snapshot(), msgs[i..]) == Receive(old(info.Snapshot()), msgs)
    {
      assert msgs[i..][1..] == msgs[i + 1..];
      HandleInfo(msgs[i], info);
    }
  }

  // ---------------------------------------------------------------------
  // The client object

  type ListenerId = nat

  /** A received event message, passed on undecoded. */
  type RawMessage = seq<u8>

  /** One call of a listener's event method. */
  datatype Delivery = Delivery(listener: ListenerId, msg: RawMessage)

  /** One delivery of `m` to each listener of `ls`, in the order of `ls`. */
  function Fanout(ls: seq<ListenerId>, m: RawMessage): (d: seq<Delivery>)
    ensures |d| == |ls|
    ensures forall i | 0 <= i < |ls| :: d[i] == Delivery(ls[i], m)
  {
    if ls == [] then [] else Fanout(ls[..|ls| - 1], m) + [Delivery(ls[|ls| - 1], m)]
  }

  /** The deliveries for a batch of messages drained from the event socket. */
  function Drain(ls: seq<ListenerId>, msgs: seq<RawMessage>): (d: seq<Delivery>)
    ensures |d| == |ls| * |msgs|
  {
    if msgs == [] then [] else Drain(ls, msgs[..|msgs| - 1]) + Fanout(ls, msgs[|msgs| - 1])
  }

  /** Every drained message reaches every listener, message by message and,
      within a message, in listener order: delivery number k * |ls| + i is
      message k handed to listener i. */
  lemma {:induction false} DrainDelivers(ls: seq<ListenerId>, msgs: seq<RawMessage>, k: nat, i: nat)
    requires k < |msgs| && i < |ls|
    ensures k * |ls| + i < |Drain(ls, msgs)|
    ensures Drain(ls, msgs)[k * |ls| + i] == Delivery(ls[i], msgs[k])
    decreases |msgs|
  {
    var n := |msgs| - 1;
    var init := msgs[..n];
    assert Drain(ls, msgs) == Drain(ls, init) + Fanout(ls, msgs[n]);
    assert |Drain(ls, init)| == n * |ls|;
    if k == n {
      assert k * |ls| + i == |Drain(ls, init)| + i;
    } else {
      DrainDelivers(ls, init, k, i);
      assert init[k] == msgs[k];
    }
  }

  /** Draining one more message appends its fan-out. */
  lemma DrainStep(before: seq<Delivery>, ls: seq<ListenerId>, msgs: seq<RawMessage>, i: nat)
    requires i < |msgs|
    ensures before + Drain(ls, msgs[..i + 1]) == before + Drain(ls, msgs[..i]) + Fanout(ls, msgs[i])
  {
    assert msgs[..i + 1][..i] == msgs[..i];
    assert Drain(ls, msgs[..i + 1]) == Drain(ls, msgs[..i]) + Fanout(ls, msgs[i]);
    assert before + (Drain(ls, msgs[..i]) + Fanout(ls, msgs[i])) == before + Drain(ls, msgs[..i]) + Fanout(ls, msgs[i]);
  }

  /** Nl80211: the listener list of the event socket, and the calls the
      listeners have received. Socket construction is taken as succeeded. */
  class Nl80211 {
    var listeners: seq<ListenerId>
    var delivered: seq<Delivery>

    constructor ()
      ensures listeners == [] && delivered == []
    {
      listeners := [];
      delivered := [];
    }

    /** add_listener: append. */
    method AddListener(l: ListenerId)
      modifies this
      ensures listeners == old(listeners) + [l]
      ensures delivered == old(delivered)
    {
      listeners := listeners + [l];
    }

    /** __handle_event: hand the message, unchanged, to every listener once,
        in registration order. */
    method HandleEvent(msg: RawMessage)
      modifies this
      ensures listeners == old(listeners)
      ensures delivered == old(delivered) + Fanout(listeners, msg)
    {
      for i := 0 to |listeners|
        invariant listeners == old(listeners)
        invariant delivered == old(delivered) + Fanout(listeners[..i], msg)
      {
        assert listeners[..i + 1][..i] == listeners[..i];
        delivered := delivered + [Delivery(listeners[i], msg)];
      }
      assert listeners[..|listeners|] == listeners;
    }

    /** descriptor_ready: drain the event socket; each valid message goes
        through handle_event. */
    method DescriptorReady(msgs: seq<RawMessage>)
      modifies this
      ensures listeners == old(listeners)
      ensures delivered == old(delivered) + Drain(listeners, msgs)
    {
      for i := 0 to |msgs|
        invariant listeners == old(listeners)
        invariant delivered == old(delivered) + Drain(listeners, msgs[..i])
      {
        DrainStep(old(delivered), listeners, msgs, i);
        HandleEvent(msgs[i]);
      }
      assert msgs[..|msgs|] == msgs;
    }

    /** get_interface_info, given the resolved interface index and the two
        replies; returns how it ended and the requests it sent. */
    method GetInterfaceInfo(ifindex: u32, scan: Reply, station: Reply, info: InterfaceInfo)
      returns (outcome: Outcome, sent: seq<Request>)
      requires info.Valid() && AllWellFormed(scan.msgs) && AllWellFormed(station.msgs)
      modifies info, info.mac, info.ssid, info.ssidFiltered
      ensures QueryResult(info.Snapshot(), outcome, sent) == Query(old(info.Snapshot()), ifindex, scan, station)
    {
      info.connected := false;
      if ifindex == 0 {
        return NoSuchInterface, [];
      }
      sent := [GetScan(ifindex)];
      ReceiveInto(scan.msgs, info);
      if !scan.ok {
        return ScanFailed, sent;
      }
      if info.connected {
        sent := sent + [GetStation(ifindex, info.mac[..])];
        ReceiveInto(station.msgs, info);
        outcome := if station.ok then StationQueried else Aborted;
      } else {
        outcome := NotAssociated;
      }
    }
  }
}
