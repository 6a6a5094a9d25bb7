/** The echo request the scanner sends and the parsing of a received datagram: IPv4 header with options, ICMP
    header, and the session text, all taken from one input stream. */
module PingPacket {
  import opened Common
  import opened IcmpHeader

  predicate IsSpace(c: uint8) { c == 0x20 || 0x09 <= c <= 0x0D }

  /** `s` without leading white space. */
  function SkipSpace(s: seq<uint8>): seq<uint8> {
    if s != [] && IsSpace(s[0]) then SkipSpace(s[1..]) else s
  }

  /** The characters up to the first white space. */
  function FirstWord(s: seq<uint8>): seq<uint8> {
    if s == [] || IsSpace(s[0]) then [] else [s[0]] + FirstWord(s[1..])
  }

  /** std::istream over a received datagram. */
  class InputStream {
    var rest: seq<uint8>
    var failed: bool

    constructor (bytes: seq<uint8>)
      ensures rest == bytes && !failed
    {
      rest, failed := bytes, false;
    }

    /** istream::read into `buffer` at `at`: nothing once the stream has failed; a short read fails it. */
    method Read(buffer: array<uint8>, at: nat, n: nat)
      requires at + n <= buffer.Length
      modifies this, buffer
      ensures var got := if old(failed) then 0 else if n <= |old(rest)| then n else |old(rest)|;
              && buffer[..] == old(buffer[..at]) + old(rest)[..got] + old(buffer[at + got..])
              && rest == old(rest)[got..]
              && failed == (old(failed) || n > |old(rest)|)
    {
      if failed { return; }
      var got := if n <= |rest| then n else |rest|;
      forall k | 0 <= k < got { buffer[at + k] := rest[k]; }
      rest, failed := rest[got..], got < n;
    }

    method SetFail()
      modifies this`failed
      ensures failed
    {
      failed := true;
    }

    /** operator>> into a string. */
    method ExtractWord() returns (s: seq<uint8>)
      modifies this
      ensures s == if old(failed) then [] else FirstWord(SkipSpace(old(rest)))
      ensures failed == (s == [])
    {
      s := [];
      if failed { return; }
      while rest != [] && IsSpace(rest[0])
        invariant SkipSpace(rest) == SkipSpace(old(rest)) && !failed
        decreases |rest|
      {
        rest := rest[1..];
      }
      while rest != [] && !IsSpace(rest[0])
        invariant s + FirstWord(rest) == FirstWord(SkipSpace(old(rest))) && !failed
        decreases |rest|
      {
        s := s + [rest[0]];
        rest := rest[1..];
      }
      failed := s == [];
    }
  }

  class Ipv4Header {
    const rep: array<uint8>

    ghost predicate Valid() { rep.Length == 60 }

    constructor ()
      ensures Valid() && fresh(rep) && forall k :: 0 <= k < 60 ==> rep[k] == 0
    {
      rep := new uint8[60](_ => 0);
    }

    function Version(): nat requires Valid() reads rep { rep[0] as int / 16 % 16 }
    function HeaderLength(): nat requires Valid() reads rep { rep[0] as int % 16 * 4 }
    function SourceAddress(): seq<uint8> requires Valid() reads rep { rep[12..16] }

    /** operator>>: 20 bytes, the version and length checks, then the options. */
    method Extract(stream: InputStream)
      requires Valid() && !stream.failed && forall k :: 0 <= k < 60 ==> rep[k] == 0
      modifies rep, stream
      ensures stream.failed <==> !Ipv4Ok(old(stream.rest))
      ensures !stream.failed ==>
                && stream.rest == old(stream.rest)[Ipv4Length(old(stream.rest))..]
                && HeaderLength() == Ipv4Length(old(stream.rest))
                && rep[..HeaderLength()] == old(stream.rest)[..HeaderLength()] && SourceAddress() == old(stream.rest)[12..16]
    {
      ghost var bytes := stream.rest;
      stream.Read(rep, 0, 20);
      assert |bytes| >= 20 ==> rep[..20] == bytes[..20] && rep[0] == bytes[0];
      if Version() != 4 {
        stream.SetFail();
      }
      var optionsLength: int := HeaderLength() - 20;
      if optionsLength < 0 || optionsLength > 40 {
        stream.SetFail();
      } else {
        ghost var ok := !stream.failed;
        stream.Read(rep, 20, optionsLength);
        if ok && !stream.failed {
          assert rep[..20 + optionsLength] == bytes[..20] + bytes[20..][..optionsLength];
          assert bytes[20..][optionsLength..] == bytes[20 + optionsLength..];
          SliceOfSlice(bytes, 0, 20 + optionsLength, 12, 16, rep[..20 + optionsLength]);
        }
      }
    }
  }

  /** operator>> of the ICMP header: its eight bytes. */
  method ExtractIcmp(stream: InputStream, header: Header)
    requires header.Valid()
    modifies header.rep, stream
    ensures stream.failed == (old(stream.failed) || |old(stream.rest)| < 8)
    ensures !stream.failed ==> header.rep[..] == old(stream.rest)[..8] && stream.rest == old(stream.rest)[8..]
  {
    stream.Read(header.rep, 0, 8);
  }

  /** The length field of the first byte, in bytes. */
  function Ipv4Length(bytes: seq<uint8>): nat
    requires |bytes| > 0
  {
    bytes[0] as int % 16 * 4
  }

  /** An IPv4 header, options included, stands at the front. */
  predicate Ipv4Ok(bytes: seq<uint8>) {
    && |bytes| >= 20
    && bytes[0] as int / 16 == 4
    && Ipv4Length(bytes) >= 20
    && |bytes| >= Ipv4Length(bytes)
  }

  /** What a reply carries: the source address, the ICMP header and the session text. */
  datatype Reply = Reply(source: seq<uint8>, icmp: seq<uint8>, text: seq<uint8>)

  /** The meaning of a received datagram: nothing unless an IPv4 header, an ICMP header and a word follow each other. */
  function ParseReply(bytes: seq<uint8>): Option<Reply> {
    if !Ipv4Ok(bytes) || |bytes| < Ipv4Length(bytes) + 8 then None
    else
      var n := Ipv4Length(bytes);
      var text := FirstWord(SkipSpace(bytes[n + 8..]));
      if text == [] then None else Some(Reply(bytes[12..16], bytes[n..n + 8], text))
  }

  /** `stream >> ipv4Header >> icmpHeader >> body`. The headers are used afterwards even if the stream failed, so
      what matters then is that the session text is empty. */
  method ReadReply(bytes: seq<uint8>) returns (ip: Ipv4Header, icmp: Header, body: seq<uint8>)
    ensures ip.Valid() && icmp.Valid() && fresh(ip.rep) && fresh(icmp.rep)
    ensures match ParseReply(bytes)
            case None => body == []
            case Some(reply) => ip.SourceAddress() == reply.source && icmp.rep[..] == reply.icmp && body == reply.text
  {
    ip := new Ipv4Header();
    icmp := new Header();
    var stream := new InputStream(bytes);
    ip.Extract(stream);
    ghost var ok, source := !stream.failed, ip.SourceAddress();
    ExtractIcmp(stream, icmp);
    ghost var complete := !stream.failed;
    body := stream.ExtractWord();
    if complete { ReplyParsed(bytes, Ipv4Length(bytes), source, icmp.rep[..], body); }
  }

  lemma ReplyParsed(bytes: seq<uint8>, n: nat, source: seq<uint8>, icmp: seq<uint8>, body: seq<uint8>)
    requires Ipv4Ok(bytes) && n == Ipv4Length(bytes) && |bytes[n..]| >= 8
    requires source == bytes[12..16] && icmp == bytes[n..][..8] && body == FirstWord(SkipSpace(bytes[n..][8..]))
    ensures ParseReply(bytes) == if body == [] then None else Some(Reply(source, icmp, body))
  {
    SliceOfSlice(bytes, n, |bytes|, 0, 8, bytes[n..]);
  }

  lemma SliceOfSlice(s: seq<uint8>, lo: nat, hi: nat, a: nat, b: nat, slice: seq<uint8>)
    requires lo <= hi <= |s| && slice == s[lo..hi] && a <= b <= hi - lo
    ensures slice[a..b] == s[lo + a..lo + b]
    ensures slice[b..] == s[lo + b..hi]
  {
    assert forall k :: 0 <= k < hi - lo ==> slice[k] == s[lo + k];
    assert forall k :: 0 <= k < b - a ==> slice[a..b][k] == slice[a + k];
    assert forall k :: 0 <= k < hi - lo - b ==> slice[b..][k] == slice[b + k];
  }

  // ---------- the request and its echo ----------

  /** The packet EchoRequest sends: type, identifier and checksum set, the session text behind the header. */
  method BuildEchoRequest(identifier: uint16, text: seq<uint8>) returns (packet: seq<uint8>)
    ensures |packet| == 8 + |text| && packet[8..] == text
    ensures packet[0] == 8 && packet[1] == 0 && Decode(packet, 4, 5) == identifier && Decode(packet, 6, 7) == 0
    ensures packet[4] as int == identifier / 0x100 && packet[5] as int == identifier % 0x100
    ensures |text| <= 131068 ==> OnesSum(0, Words(packet)) == 0xFFFF
  {
    var header := new Header();
    header.SetType(ECHO_REQUEST);
    header.SetIdentifier(identifier);
    ComputeChecksum(header, text);
    packet := header.rep[..] + text;
    assert packet[8..] == text;
    if |text| <= 131068 {
      FinishedPacketVerifies(packet);
    }
  }

  /** A session text as the scanner uses it. */
  predicate SessionText(text: seq<uint8>) {
    text != [] && forall c :: c in text ==> !IsSpace(c)
  }

  lemma {:induction false} WordOfText(text: seq<uint8>, tail: seq<uint8>)
    requires (forall c :: c in text ==> !IsSpace(c)) && (tail == [] || IsSpace(tail[0]))
    ensures FirstWord(text + tail) == text
  {
    if text == [] {
      assert text + tail == tail;
    } else {
      assert (text + tail)[1..] == text[1..] + tail;
      WordOfText(text[1..], tail);
    }
  }

  /** Whatever options the IPv4 header carries, an echo reply parses back to its source address, its identifier and
      the session text sent; anything behind the text must be set off by white space. */
  lemma ReplyRoundTrip(ip: seq<uint8>, icmp: seq<uint8>, text: seq<uint8>, tail: seq<uint8>)
    requires 20 <= |ip| <= 60 && |ip| % 4 == 0 && ip[0] as int == 0x40 + |ip| / 4
    requires |icmp| == 8 && SessionText(text) && (tail == [] || IsSpace(tail[0]))
    ensures ParseReply(ip + icmp + text + tail) == Some(Reply(ip[12..16], icmp, text))
  {
    var bytes, n := ip + icmp + text + tail, |ip|;
    assert bytes[0] == ip[0] && Ipv4Length(bytes) == n;
    assert bytes[n..n + 8] == icmp && bytes[12..16] == ip[12..16];
    assert bytes[n + 8..] == text + tail;
    assert (text + tail)[0] == text[0] && text[0] in text;
    WordOfText(text, tail);
  }

  /** Conversely, a session text is only ever taken from behind a complete IPv4 and ICMP header, is never empty and
      holds no white space. */
  lemma ParsedTextIsSound(bytes: seq<uint8>)
    requires ParseReply(bytes).Some?
    ensures Ipv4Ok(bytes) && |bytes| > Ipv4Length(bytes) + 8
    ensures var reply := ParseReply(bytes).value;
            && SessionText(reply.text)
            && exists k: nat :: Ipv4Length(bytes) + 8 <= k && StandsAt(bytes, k, reply.text)
  {
    var n := Ipv4Length(bytes) + 8;
    var s := bytes[n..];
    var skipped := SkipSpace(s);
    SkipSpaceIsSuffix(s);
    FirstWordIsPrefix(skipped);
    SuffixPrefixStands(bytes, n, s, |s| - |skipped|, skipped, FirstWord(skipped));
  }

  lemma SuffixPrefixStands(bytes: seq<uint8>, n: nat, s: seq<uint8>, d: nat, skipped: seq<uint8>, text: seq<uint8>)
    requires n <= |bytes| && s == bytes[n..] && d <= |s| && skipped == s[d..]
    requires |text| <= |skipped| && text == skipped[..|text|]
    ensures StandsAt(bytes, n + d, text)
  {
    SliceOfSlice(bytes, n, |bytes|, d, |s|, s);
    SliceOfSlice(bytes, n + d, |bytes|, 0, |text|, skipped);
  }

  /** The white space of the C locale: tab, line feed, vertical tab, form feed, carriage return and blank. */
  ghost predicate White(c: uint8) { c == 9 || c == 10 || c == 11 || c == 12 || c == 13 || c == 32 }

  /** A datagram is a reply exactly when a complete version-4 header of 20 to 60 bytes and an ICMP header are followed by
      anything but white space. */
  lemma ParsesIff(bytes: seq<uint8>)
    ensures ParseReply(bytes).Some?
            <==> |bytes| >= 20 && 0x40 <= bytes[0] < 0x50 && bytes[0] as int - 0x40 >= 5
                 && exists k :: (bytes[0] as int - 0x40) * 4 + 8 <= k < |bytes| && !White(bytes[k])
  {
    if |bytes| >= 20 && 0x40 <= bytes[0] < 0x50 && bytes[0] as int - 0x40 >= 5 && |bytes| >= (bytes[0] as int - 0x40) * 4 + 8 {
      var n := (bytes[0] as int - 0x40) * 4 + 8;
      var s := bytes[n..];
      AllSpace(s);
      assert forall k :: n <= k < |bytes| ==> bytes[k] == s[k - n];
      assert forall k :: 0 <= k < |s| ==> s[k] == bytes[n + k];
    }
  }

  lemma {:induction false} AllSpace(s: seq<uint8>)
    ensures FirstWord(SkipSpace(s)) == [] <==> forall k :: 0 <= k < |s| ==> White(s[k])
  {
    if s != [] && IsSpace(s[0]) {
      AllSpace(s[1..]);
      assert forall k :: 1 <= k < |s| ==> s[k] == s[1..][k - 1];
      assert White(s[0]);
    }
  }

  predicate StandsAt(bytes: seq<uint8>, k: nat, text: seq<uint8>) {
    k + |text| <= |bytes| && bytes[k..k + |text|] == text
  }

  lemma {:induction false} SkipSpaceIsSuffix(s: seq<uint8>)
    ensures |SkipSpace(s)| <= |s| && SkipSpace(s) == s[|s| - |SkipSpace(s)|..]
  {
    if s != [] && IsSpace(s[0]) { SkipSpaceIsSuffix(s[1..]); }
  }

  lemma {:induction false} FirstWordIsPrefix(s: seq<uint8>)
    ensures |FirstWord(s)| <= |s| && FirstWord(s) == s[..|FirstWord(s)|] && forall c :: c in FirstWord(s) ==> !IsSpace(c)
  {
    if s != [] && !IsSpace(s[0]) { FirstWordIsPrefix(s[1..]); }
  }
}
