/**
 * The information-element stream of an IEEE 802.11 scan entry (IEEE 802.11,
 * clause 9.4.2): a sequence of (element id: 1 octet, length: 1 octet, value)
 * triples, and the printable copy the client keeps of an SSID.
 */
module InfoElements {

  /** An octet of a netlink payload. */
  newtype u8 = x: int | 0 <= x < 256

  /** Element id of the SSID element. */
  const SsidElementId: u8 := 0

  /** Size of each of the two SSID buffers of an interface snapshot. An SSID
      element must be shorter than this so that the filtered copy keeps room
      for its terminating NUL. */
  const SsidCapacity: nat := 33

  const Quote: u8 := 0x22     // '"'
  const Question: u8 := 0x3F  // '?'

  datatype Element = Element(id: u8, value: seq<u8>)

  /** Every value fits the one-octet length field of its header. */
  predicate Encodable(es: seq<Element>) {
    forall e | e in es :: |e.value| < 256
  }

  /** Every SSID element fits the snapshot's SSID buffers. */
  predicate SsidsFit(es: seq<Element>) {
    forall e | e in es :: e.id == SsidElementId ==> |e.value| < SsidCapacity
  }

  /** The element at the front of `ies` is complete: its id octet, its length
      octet and the declared number of value octets all lie in the buffer. */
  predicate HeaderFits(ies: seq<u8>) {
    |ies| >= 2 && ies[1] as int + 2 <= |ies|
  }

  /** The elements of a stream, front to back, up to the first element that
      is not complete; a truncated tail is ignored. */
  function Elements(ies: seq<u8>): (es: seq<Element>)
    ensures Encodable(es)
    decreases |ies|
  {
    if HeaderFits(ies) then
      var l := ies[1] as int;
      [Element(ies[0], ies[2..2 + l])] + Elements(ies[2 + l..])
    else []
  }

  /** The octets of a list of elements, headers included. */
  function Encode(es: seq<Element>): (ies: seq<u8>)
    requires Encodable(es)
  {
    if es == [] then []
    else [es[0].id, |es[0].value| as u8] + es[0].value + Encode(es[1..])
  }

  /** Decoding an encoded list of elements gives the list back. */
  lemma {:induction false} ElementsOfEncode(es: seq<Element>)
    requires Encodable(es)
    ensures Elements(Encode(es)) == es
  {
    if es != [] {
      var e, rest := es[0], es[1..];
      var l := |e.value|;
      var ies := Encode(es);
      assert ies == [e.id, l as u8] + e.value + Encode(rest);
      assert ies[1] as int == l;
      assert ies[2..2 + l] == e.value;
      assert ies[2 + l..] == Encode(rest);
      ElementsOfEncode(rest);
      assert es == [e] + rest;
    }
  }

  /** The walk consumes a prefix of the buffer made of whole elements and
      stops at a tail that holds no complete element: it never needs an octet
      past the end of the buffer. */
  lemma {:induction false} ElementsCoverPrefix(ies: seq<u8>)
    ensures var used := Encode(Elements(ies));
      && |used| <= |ies|
      && ies[..|used|] == used
      && !HeaderFits(ies[|used|..])
  {
    if HeaderFits(ies) {
      var l := ies[1] as int;
      var rest := ies[2 + l..];
      ElementsCoverPrefix(rest);
      EncodeFirstElement(ies);
      var tailUsed := Encode(Elements(rest));
      Slices(ies, 2 + l, |tailUsed|);
    }
  }

  /** Cutting a sequence at `a` and then the rest at `b`. */
  lemma Slices<T>(s: seq<T>, a: nat, b: nat)
    requires a + b <= |s|
    ensures s[..a + b] == s[..a] + s[a..][..b]
    ensures s[a + b..] == s[a..][b..]
  {
  }

  /** Re-encoding the first complete element gives back its octets. */
  lemma EncodeFirstElement(ies: seq<u8>)
    requires HeaderFits(ies)
    ensures Encode(Elements(ies)) == ies[..2 + ies[1] as int] + Encode(Elements(ies[2 + ies[1] as int..]))
  {
    var l := ies[1] as int;
    var e := Element(ies[0], ies[2..2 + l]);
    var rest := Elements(ies[2 + l..]);
    assert Elements(ies) == [e] + rest;
    assert ([e] + rest)[0] == e && ([e] + rest)[1..] == rest;
    assert Encode([e] + rest) == [e.id, |e.value| as u8] + e.value + Encode(rest);
    HeaderOctets(ies);
  }

  /** The header and value of the first complete element are its octets. */
  lemma HeaderOctets(ies: seq<u8>)
    requires HeaderFits(ies)
    ensures [ies[0], ies[1]] + ies[2..2 + ies[1] as int] == ies[..2 + ies[1] as int]
  {
  }

  /** isprint() in the "C" locale: the octets 0x20 to 0x7E. */
  predicate IsPrint(b: u8) {
    0x20 <= b <= 0x7E
  }

  /** An SSID octet that the filtered copy keeps as it is. */
  predicate Displayable(b: u8) {
    IsPrint(b) && b != Quote
  }

  /** The printable-safe copy of an SSID: each octet that is printable and
      not a double quote is kept, every other octet becomes '?'. */
  function Filtered(v: seq<u8>): (f: seq<u8>)
    ensures |f| == |v|
    ensures forall i | 0 <= i < |v| :: Displayable(v[i]) ==> f[i] == v[i]
    ensures forall i | 0 <= i < |v| :: !Displayable(v[i]) ==> f[i] == Question
    ensures forall i | 0 <= i < |f| :: Displayable(f[i])
  {
    if v == [] then []
    else [if Displayable(v[0]) then v[0] else Question] + Filtered(v[1..])
  }

  /** Filtering an already filtered SSID changes nothing. */
  lemma FilteredIdempotent(v: seq<u8>)
    ensures Filtered(Filtered(v)) == Filtered(v)
  {
    var f := Filtered(v);
    assert forall i | 0 <= i < |f| :: Filtered(f)[i] == f[i];
  }

  // ---------------------------------------------------------------------
  // The loop guard as the code writes it

  /** The guard of the walk as written: it compares the remaining count with
      the declared value length alone, not with the length plus the two
      header octets. */
  predicate GuardAsWritten(remaining: nat, declared: u8) {
    remaining >= 2 && remaining >= declared as int
  }

  /** `length -= l + 2` on a 64-bit size_t: exact without underflow, and
      wrapped by 2^64 when fewer than 2^64 octets too many are subtracted. */
  function SizeSub(length: nat, n: nat): (r: nat)
    ensures r < 0x1_0000_0000_0000_0000
    ensures n <= length < 0x1_0000_0000_0000_0000 ==> r == length - n
    ensures length < n <= length + 0x1_0000_0000_0000_0000 ==> r == length - n + 0x1_0000_0000_0000_0000
  {
    (length - n) % 0x1_0000_0000_0000_0000
  }

  /** Where the two guards differ: the written one also admits an element
      whose value runs one or two octets past the end of the buffer. */
  lemma GuardAsWrittenAdmitsOverrun(ies: seq<u8>)
    requires |ies| >= 2
    ensures HeaderFits(ies) ==> GuardAsWritten(|ies|, ies[1])
    ensures GuardAsWritten(|ies|, ies[1]) && !HeaderFits(ies) <==> |ies| - 2 < ies[1] as int <= |ies|
  {
  }

  /** The three-octet stream 00 02 41: the written guard enters the loop,
      the SSID copy needs four octets of a three-octet buffer, and the
      remaining count wraps to 2^64 - 1, so the walk goes on reading past the
      end. The complete-element walk finds no element in it. */
  lemma TruncatedTailUnderflows()
    ensures var ies: seq<u8> := [0, 2, 0x41];
      && GuardAsWritten(|ies|, ies[1])
      && ies[1] as int + 2 > |ies|
      && SizeSub(|ies|, ies[1] as int + 2) == 0xFFFF_FFFF_FFFF_FFFF
      && Elements(ies) == []
  {
  }
}
