/** The ICMP header and its checksum: a 32-bit sum with deferred carries, folded twice, against the word-by-word
    end-around-carry addition of section 1 of RFC 1071. */
module IcmpHeader {
  import opened Common

  const ECHO_REPLY: uint8 := 0
  const ECHO_REQUEST: uint8 := 8

  /** Two bytes in network order. */
  function Word(hi: uint8, lo: uint8): uint16 { hi as int * 0x100 + lo as int }

  /** A big-endian 16-bit field. */
  function Decode(rep: seq<uint8>, a: nat, b: nat): uint16
    requires a < |rep| && b < |rep|
  {
    Word(rep[a], rep[b])
  }

  class Header {
    const rep: array<uint8>

    ghost predicate Valid() { rep.Length == 8 }

    constructor ()
      ensures Valid() && fresh(rep) && rep[..] == [0, 0, 0, 0, 0, 0, 0, 0]
    {
      rep := new uint8[8](_ => 0);
    }

    function Type(): uint8 requires Valid() reads rep { rep[0] }
    function Code(): uint8 requires Valid() reads rep { rep[1] }
    function Checksum(): uint16 requires Valid() reads rep { Word(rep[2], rep[3]) }
    function Identifier(): uint16 requires Valid() reads rep { Word(rep[4], rep[5]) }
    function SequenceNumber(): uint16 requires Valid() reads rep { Word(rep[6], rep[7]) }

    method SetType(n: uint8)
      requires Valid()
      modifies rep
      ensures rep[..] == old(rep[..])[0 := n]
    {
      rep[0] := n;
    }

    method SetIdentifier(n: uint16)
      requires Valid()
      modifies rep
      ensures rep[4] as int == n / 0x100 && rep[5] as int == n % 0x100
      ensures Identifier() == n && forall k :: 0 <= k < 8 && k != 4 && k != 5 ==> rep[k] == old(rep[k])
    {
      Encode(4, 5, n);
    }

    method SetChecksum(n: uint16)
      requires Valid()
      modifies rep
      ensures rep[2] as int == n / 0x100 && rep[3] as int == n % 0x100
      ensures Checksum() == n && forall k :: 0 <= k < 8 && k != 2 && k != 3 ==> rep[k] == old(rep[k])
    {
      Encode(2, 3, n);
    }

    method Encode(a: nat, b: nat, n: uint16)
      requires Valid() && a < 8 && b < 8 && a != b
      modifies rep
      ensures rep[a] as int == n / 0x100 && rep[b] as int == n % 0x100  // network order
      ensures Word(rep[a], rep[b]) == n && forall k :: 0 <= k < 8 && k != a && k != b ==> rep[k] == old(rep[k])
    {
      rep[a] := n / 0x100;
      rep[b] := n % 0x100;
    }
  }

  // ---------- RFC 1071 ----------

  /** The 16-bit words of a byte string, an odd tail padded with zero. */
  ghost function Words(bytes: seq<uint8>): seq<uint16>
  {
    if |bytes| == 0 then []
    else if |bytes| == 1 then [Word(bytes[0], 0)]
    else [Word(bytes[0], bytes[1])] + Words(bytes[2..])
  }

  /** Addition with end-around carry. */
  function OnesAdd(a: uint16, b: uint16): uint16 {
    if a + b > 0xFFFF then a + b - 0xFFFF else a + b
  }

  /** Word-by-word end-around-carry addition. */
  ghost function OnesSum(acc: uint16, ws: seq<uint16>): uint16
    decreases |ws|
  {
    if ws == [] then acc else OnesSum(OnesAdd(acc, ws[0]), ws[1..])
  }

  /** The checksum the standard asks for: the complement of the sum of all words but the checksum field. */
  ghost function Rfc1071(type_: uint8, code: uint8, identifier: uint16, sequence: uint16, body: seq<uint8>): uint16 {
    0xFFFF - OnesSum(0, [Word(type_, code), identifier, sequence] + Words(body))
  }

  ghost function Sum(ws: seq<uint16>): nat {
    if ws == [] then 0 else ws[0] + Sum(ws[1..])
  }

  /** A sum reduced by end-around carries: zero stays zero, everything else ends in 1..0xFFFF. */
  ghost function Reduce(n: nat): (r: uint16)
    ensures n <= 0xFFFF ==> r == n
    ensures n > 0 ==> r > 0
  {
    if n <= 0xFFFF then n else Reduce(n - 0xFFFF)
  }

  lemma {:induction false} ReduceAdd(n: nat, w: uint16)
    ensures OnesAdd(Reduce(n), w) == Reduce(n + w)
  {
    if n > 0xFFFF { ReduceAdd(n - 0xFFFF, w); }
  }

  lemma {:induction false} OnesSumIsReduce(n: nat, ws: seq<uint16>)
    ensures OnesSum(Reduce(n), ws) == Reduce(n + Sum(ws))
    decreases |ws|
  {
    if ws != [] {
      ReduceAdd(n, ws[0]);
      OnesSumIsReduce(n + ws[0], ws[1..]);
    }
  }

  lemma {:induction false} ReduceMultiple(k: nat, r: nat, n: nat)
    requires n == 0xFFFF * k + r && (r > 0 || k == 0)
    ensures Reduce(n) == Reduce(r)
    decreases k
  {
    if k > 0 {
      ReduceMultiple(k - 1, r, n - 0xFFFF);
    }
  }

  /** Two folds of a 32-bit sum carry everything around. */
  function Fold(sum: nat): uint16
    requires sum < TWO32
  {
    var s1 := sum / 0x1_0000 + sum % 0x1_0000;
    var s2 := s1 + s1 / 0x1_0000;
    s2 % 0x1_0000
  }

  lemma TwoFoldsSuffice(sum: nat)
    requires sum < TWO32
    ensures Fold(sum) == Reduce(sum)
  {
    var h, l := sum / 0x1_0000, sum % 0x1_0000;
    ReduceMultiple(h, h + l, sum);
    FoldHalves(h, l);
  }

  lemma FoldHalves(h: nat, l: nat)
    requires h <= 0xFFFF && l <= 0xFFFF
    ensures (h + l + (h + l) / 0x1_0000) % 0x1_0000 == Reduce(h + l)
  {
    if h + l > 0xFFFF {
      assert (h + l) / 0x1_0000 == 1;
      assert Reduce(h + l) == h + l - 0xFFFF;
    }
  }

  // ---------- the code ----------

  /** The sum of the words of a byte string. */
  ghost function ByteSum(bytes: seq<uint8>): nat { Sum(Words(bytes)) }

  /** The sum the code accumulates, before any wrap-around. */
  ghost function Total(type_: uint8, code: uint8, identifier: uint16, sequence: uint16, body: seq<uint8>): nat {
    Word(type_, code) as int + identifier as int + sequence as int + ByteSum(body)
  }

  lemma SumOfThree(a: uint16, b: uint16, c: uint16, ws: seq<uint16>)
    ensures Sum([a, b, c] + ws) == a as int + b as int + c as int + Sum(ws)
  {
    var w0, w1, w2: seq<uint16> := [a, b, c] + ws, [b, c] + ws, [c] + ws;
    assert w0[1..] == w1 && w1[1..] == w2 && w2[1..] == ws;
    assert Sum(w2) == w2[0] as int + Sum(w2[1..]);
    assert Sum(w1) == w1[0] as int + Sum(w1[1..]);
  }

  lemma TotalIsReference(type_: uint8, code: uint8, identifier: uint16, sequence: uint16, body: seq<uint8>)
    ensures Rfc1071(type_, code, identifier, sequence, body) == 0xFFFF - Reduce(Total(type_, code, identifier, sequence, body))
  {
    var ws := Words(body);
    var header := [Word(type_, code), identifier, sequence];
    OnesSumIsReduce(0, header + ws);
    SumOfThree(Word(type_, code), identifier, sequence, ws);
  }

  lemma {:induction false} ByteSumBound(body: seq<uint8>)
    ensures ByteSum(body) <= 0xFFFF * ((|body| + 1) / 2)
    decreases |body|
  {
    if |body| >= 2 {
      ByteSumBound(body[2..]);
      ByteSumStep(body);
      assert (|body| + 1) / 2 == 1 + (|body[2..]| + 1) / 2;
    } else if |body| == 1 {
      ByteSumOfOne(body[0]);
      assert body == [body[0]];
    }
  }

  lemma ByteSumStep(body: seq<uint8>)
    requires |body| >= 2
    ensures ByteSum(body) == Word(body[0], body[1]) as int + ByteSum(body[2..])
  {
    assert Words(body)[1..] == Words(body[2..]);
  }

  lemma ByteSumOfOne(b: uint8)
    ensures ByteSum([b]) == Word(b, 0) as int
  {
    var ws := Words([b]);
    assert ws == [Word(b, 0)] && ws[1..] == [];
    assert Sum(ws) == ws[0] as int + Sum(ws[1..]);
  }

  /** Up to 131068 body bytes the 32-bit sum cannot overflow. */
  lemma NoOverflow(type_: uint8, code: uint8, identifier: uint16, sequence: uint16, body: seq<uint8>)
    requires |body| <= 131068
    ensures Total(type_, code, identifier, sequence, body) < TWO32
  {
    ByteSumBound(body);
  }

  /** `unsigned int` addition: wraps at 2^32. */
  method Add32(a: nat, b: nat) returns (s: nat, ghost carry: nat)
    ensures s < TWO32 && s + carry * TWO32 == a + b
  {
    s, carry := (a + b) % TWO32, (a + b) / TWO32;
  }

  /** The accumulation loop: the sum of the header fields and the body words, modulo 2^32. */
  method Accumulate(type_: uint8, code: uint8, identifier: uint16, sequence: uint16, body: seq<uint8>) returns (sum: nat)
    ensures sum == Total(type_, code, identifier, sequence, body) % TWO32
  {
    ghost var total := Total(type_, code, identifier, sequence, body);
    sum := Word(type_, code) as int + identifier as int + sequence as int;
    var i := 0;
    assert body[0..] == body;
    ghost var lost: nat := 0;  // wraps so far
    while i != |body|
      invariant 0 <= i <= |body| && sum < TWO32
      invariant sum + lost * TWO32 + ByteSum(body[i..]) == total
    {
      ghost var rest := body[i..];
      ghost var carry;
      sum, carry := Add32(sum, Word(body[i], 0));
      lost := lost + carry;
      i := i + 1;
      if i != |body| {
        sum, carry := Add32(sum, body[i]);
        lost := lost + carry;
        i := i + 1;
        ByteSumStep(rest);
        assert rest[2..] == body[i..];
      } else {
        ByteSumOfOne(rest[0]);
        assert rest == [rest[0]] && body[i..] == [];
      }
    }
    assert body[i..] == [];
    WrappedSum(sum, lost);
  }

  lemma WrappedSum(sum: nat, lost: nat)
    requires sum < TWO32
    ensures (sum + lost * TWO32) % TWO32 == sum
  {
  }

  /** compute_checksum: any body leaves the reduced complement of the sum modulo 2^32; as long as the sum fits 32 bits,
      and so for every body of at most 131068 bytes, that is the checksum of RFC 1071. */
  method ComputeChecksum(header: Header, body: seq<uint8>)
    requires header.Valid()
    modifies header.rep
    ensures forall k :: 0 <= k < 8 && k != 2 && k != 3 ==> header.rep[k] == old(header.rep[k])
    ensures var t, c, id, sq := old(header.Type()), old(header.Code()), old(header.Identifier()), old(header.SequenceNumber());
            && header.Checksum() == 0xFFFF - Reduce(Total(t, c, id, sq, body) % TWO32)
            && (|body| <= 131068 || Total(t, c, id, sq, body) < TWO32 ==> header.Checksum() == Rfc1071(t, c, id, sq, body))
  {
    var sum := Accumulate(header.Type(), header.Code(), header.Identifier(), header.SequenceNumber(), body);
    Conforms(header.Type(), header.Code(), header.Identifier(), header.SequenceNumber(), body, sum);
    header.SetChecksum(0xFFFF - Fold(sum));
  }

  lemma Conforms(t: uint8, c: uint8, id: uint16, sq: uint16, body: seq<uint8>, sum: nat)
    requires sum == Total(t, c, id, sq, body) % TWO32
    ensures Fold(sum) == Reduce(Total(t, c, id, sq, body) % TWO32)
    ensures |body| <= 131068 || Total(t, c, id, sq, body) < TWO32 ==> 0xFFFF - Fold(sum) == Rfc1071(t, c, id, sq, body)
  {
    TwoFoldsSuffice(sum);
    TotalIsReference(t, c, id, sq, body);
    FitsOrNot(t, c, id, sq, body, Total(t, c, id, sq, body));
  }

  lemma FitsOrNot(t: uint8, c: uint8, id: uint16, sq: uint16, body: seq<uint8>, total: nat)
    requires total == Total(t, c, id, sq, body)
    ensures |body| <= 131068 || total < TWO32 ==> total % TWO32 == total
  {
    if |body| <= 131068 { NoOverflow(t, c, id, sq, body); }
  }

  // ---------- what the checksum is for ----------

  /** A packet whose checksum field holds the complement of the reduced sum of its other words adds up to 0xFFFF. */
  lemma FinishedPacketVerifies(packet: seq<uint8>)
    requires |packet| >= 8
    requires Decode(packet, 2, 3) == Rfc1071(packet[0], packet[1], Decode(packet, 4, 5), Decode(packet, 6, 7), packet[8..])
    ensures OnesSum(0, Words(packet)) == 0xFFFF
  {
    var total := Total(packet[0], packet[1], Decode(packet, 4, 5), Decode(packet, 6, 7), packet[8..]);
    TotalIsReference(packet[0], packet[1], Decode(packet, 4, 5), Decode(packet, 6, 7), packet[8..]);
    OnesSumIsReduce(0, Words(packet));
    PacketSum(packet);
    ReduceAdd(total, 0xFFFF - Reduce(total));
  }

  lemma PacketSum(packet: seq<uint8>)
    requires |packet| >= 8
    ensures ByteSum(packet) == Total(packet[0], packet[1], Decode(packet, 4, 5), Decode(packet, 6, 7), packet[8..]) + Decode(packet, 2, 3)
  {
    var p2, p4, p6 := packet[2..], packet[4..], packet[6..];
    assert p2[2..] == p4 && p4[2..] == p6 && p6[2..] == packet[8..];
    ByteSumStep(packet);
    ByteSumStep(p2);
    ByteSumStep(p4);
    ByteSumStep(p6);
  }

  // ---------- beyond 131068 bytes ----------

  lemma {:induction false} ReduceShifted(n: nat, w: nat)
    requires 0 < w < 0xFFFF
    ensures Reduce(n + w) != Reduce(n)
  {
    if n > 0xFFFF { ReduceShifted(n - 0xFFFF, w); }
  }

  /** What the code stores is the checksum of the standard exactly when the sum fits 32 bits or the wrap-arounds cancel:
      each of them loses one, and the reduction is modulo 65535. */
  lemma StoredIsReferenceIff(type_: uint8, code: uint8, identifier: uint16, sequence: uint16, body: seq<uint8>)
    ensures var total := Total(type_, code, identifier, sequence, body);
            0xFFFF - Reduce(total % TWO32) == Rfc1071(type_, code, identifier, sequence, body)
            <==> total < TWO32 || (total % TWO32 > 0 && total / TWO32 % 0xFFFF == 0)
  {
    TotalIsReference(type_, code, identifier, sequence, body);
    WrapsCancelIff(Total(type_, code, identifier, sequence, body));
  }

  lemma WrapsCancelIff(total: nat)
    ensures Reduce(total % TWO32) == Reduce(total) <==> total < TWO32 || (total % TWO32 > 0 && total / TWO32 % 0xFFFF == 0)
  {
    var s, w := total % TWO32, total / TWO32;
    if w > 0 {
      ReduceMultiple(65537 * w, s + w, total);
      if s + w % 0xFFFF > 0 {
        ReduceMultiple(w / 0xFFFF, s + w % 0xFFFF, s + w);
        if w % 0xFFFF > 0 { ReduceShifted(s, w % 0xFFFF); }
      }
    }
  }

  lemma {:induction false} ByteSumOfOnes(n: nat)
    ensures ByteSum(seq(n, _ => 0xFF as uint8)) == (n / 2) * 0xFFFF + (n % 2) * 0xFF00
  {
    var bytes: seq<uint8> := seq(n, _ => 0xFF as uint8);
    if n >= 2 {
      assert bytes[2..] == seq(n - 2, _ => 0xFF as uint8);
      ByteSumStep(bytes);
      ByteSumOfOnes(n - 2);
    } else if n == 1 {
      ByteSumOfOne(0xFF);
      assert bytes == [0xFF];
    } else {
      assert bytes == [];
    }
  }

  /** The bound is sharp: one byte more, and there is a packet whose stored checksum is wrong. */
  lemma BoundIsSharp()
    ensures var body: seq<uint8> := seq(131069, _ => 0xFF as uint8);
            0xFFFF - Reduce(Total(0xFF, 0xFF, 0xFFFF, 0xFFFF, body) % TWO32) != Rfc1071(0xFF, 0xFF, 0xFFFF, 0xFFFF, body)
  {
    var body: seq<uint8> := seq(131069, _ => 0xFF as uint8);
    ByteSumOfOnes(131069);
    StoredIsReferenceIff(0xFF, 0xFF, 0xFFFF, 0xFFFF, body);
  }
}
